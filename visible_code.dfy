/**
 * The line extractor: the excerpt of the viewport `[start, end)` that is sent
 * to the language model, one "<1-based number>: <text> \n" entry per line.
 * The document is its sequence of lines, as `lineAt(i).text` yields them.
 */
module VisibleCode {
  import opened Wrappers
  import opened Text

  /** The excerpt entry for the line at 0-based `index`. */
  function Entry(index: nat, text: string): string
  {
    NatToString(index + 1) + ": " + text + " \n"
  }

  /** The entry without its terminating '\n'. */
  function NumberedLine(index: nat, text: string): string
  {
    NatToString(index + 1) + ": " + text + " "
  }

  /** `lineAt` can serve every index of `[start, end)`. */
  predicate Readable(doc: seq<string>, start: nat, end: nat)
  {
    start >= end || end <= |doc|
  }

  /** The entries of the viewport, in ascending line order. */
  function Entries(doc: seq<string>, start: nat, end: nat): (r: seq<string>)
    requires Readable(doc, start, end)
    ensures |r| == if start < end then end - start else 0
    ensures forall k :: 0 <= k < |r| ==> r[k] == Entry(start + k, doc[start + k])
    decreases end - start
  {
    if start < end then [Entry(start, doc[start])] + Entries(doc, start + 1, end) else []
  }

  /** The viewport grown by one line at its end has that line's entry last. */
  lemma {:induction false} EntriesSnoc(doc: seq<string>, start: nat, end: nat)
    requires start <= end < |doc|
    ensures Entries(doc, start, end + 1) == Entries(doc, start, end) + [Entry(end, doc[end])]
    decreases end - start
  {
    if start < end {
      EntriesSnoc(doc, start + 1, end);
    }
  }

  /**
   * `getVisibleCodeWithLineNumbers`: walks the viewport line by line. `None`
   * stands for the exception `lineAt` throws on an index past the document.
   */
  method GetVisibleCodeWithLineNumbers(doc: seq<string>, start: nat, end: nat) returns (code: Option<string>)
    ensures code.None? <==> !Readable(doc, start, end)
    ensures code.Some? ==> code.value == Concat(Entries(doc, start, end))
  {
    var currentLine := start;
    var text := "";
    while currentLine < end
      invariant start <= currentLine && (start < end ==> currentLine <= end)
      invariant start >= end ==> currentLine == start
      invariant currentLine == start || currentLine <= |doc|
      invariant text == Concat(Entries(doc, start, currentLine))
    {
      if currentLine >= |doc| {
        return None;
      }
      ghost var before := Entries(doc, start, currentLine);
      EntriesSnoc(doc, start, currentLine);
      ConcatSnoc(before, Entry(currentLine, doc[currentLine]));
      text := text + Entry(currentLine, doc[currentLine]);
      currentLine := currentLine + 1;
    }
    code := Some(text);
  }

  /** An entry is its numbered line followed by one '\n', and the numbered line has none. */
  lemma EntryShape(index: nat, text: string)
    requires '\n' !in text
    ensures Entry(index, text) == NumberedLine(index, text) + "\n"
    ensures '\n' !in NumberedLine(index, text)
  {
    var digits := NatToString(index + 1);
    assert forall i :: 0 <= i < |digits| ==> IsDigit(digits[i]);
    assert NumberedLine(index, text) == digits + ": " + text + " ";
  }

  /** The numbered lines of the viewport, in ascending line order: the `k`-th is numbered `start + k + 1`. */
  function NumberedLines(doc: seq<string>, start: nat, end: nat): (r: seq<string>)
    requires Readable(doc, start, end)
    ensures |r| == if start < end then end - start else 0
    ensures forall k :: 0 <= k < |r| ==> r[k] == NumberedLine(start + k, doc[start + k])
    decreases end - start
  {
    if start < end then [NumberedLine(start, doc[start])] + NumberedLines(doc, start + 1, end) else []
  }

  /** The entries are the numbered lines, each terminated by '\n'. */
  lemma {:induction false} EntriesTerminated(doc: seq<string>, start: nat, end: nat)
    requires Readable(doc, start, end)
    ensures Entries(doc, start, end) == Terminated(NumberedLines(doc, start, end), '\n')
    decreases end - start
  {
    if start < end {
      EntriesTerminated(doc, start + 1, end);
      assert NumberedLines(doc, start, end)[1..] == NumberedLines(doc, start + 1, end);
      assert Entry(start, doc[start]) == NumberedLine(start, doc[start]) + "\n";
    }
  }

  /** No numbered line of a viewport free of '\n' holds one. */
  lemma {:induction false} NumberedLinesUnbroken(doc: seq<string>, start: nat, end: nat)
    requires Readable(doc, start, end)
    requires forall i :: start <= i < end ==> '\n' !in doc[i]
    ensures forall k :: 0 <= k < |NumberedLines(doc, start, end)| ==> '\n' !in NumberedLines(doc, start, end)[k]
    decreases end - start
  {
    if start < end {
      NumberedLinesUnbroken(doc, start + 1, end);
      EntryShape(start, doc[start]);
      var lines := NumberedLines(doc, start, end);
      assert forall k :: 1 <= k < |lines| ==> lines[k] == NumberedLines(doc, start + 1, end)[k - 1];
    }
  }

  /**
   * Read back at its '\n's, the excerpt is exactly one numbered line per
   * viewport line, in ascending order, followed by the empty rest after the
   * last '\n': so it has `end - start` entries, and none when `start >= end`.
   */
  lemma ExcerptLines(doc: seq<string>, start: nat, end: nat)
    requires Readable(doc, start, end)
    requires forall i :: start <= i < end ==> '\n' !in doc[i]
    ensures Split(Concat(Entries(doc, start, end)), '\n') == NumberedLines(doc, start, end) + [""]
    ensures |NumberedLines(doc, start, end)| == if start < end then end - start else 0
  {
    EntriesTerminated(doc, start, end);
    NumberedLinesUnbroken(doc, start, end);
    SplitTerminated(NumberedLines(doc, start, end), '\n');
  }
}
