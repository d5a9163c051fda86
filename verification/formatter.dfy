/**
  The context formatter (`format_entry`): a history entry is shown as the
  line that contains the query, with one trimmed line of context on either
  side, and carries the whole original entry as its payload.
 */
module Formatter {
  import opened Text

  /** One row of the result list: the label the launcher shows (`name`) and the
      text handed back when the row is activated (`ExtensionCustomAction(entry)`). */
  datatype DisplayResult = DisplayResult(name: string, payload: string)

  /** The marker that flags a context line as cut from a longer entry. */
  const Ellipsis: string := "..."

  /** `entry.strip().split('\n')`. */
  function EntryLines(entry: string): (lines: seq<string>)
    ensures |lines| >= 1
    ensures NoBreaks(lines)
  {
    Split(Strip(entry), NL)
  }

  /** `query in line.lower()`. */
  predicate LineMatches(query: string, line: string) {
    Contains(Lower(line), query)
  }

  predicate SomeLineMatches(query: string, lines: seq<string>) {
    exists k | 0 <= k < |lines| :: LineMatches(query, lines[k])
  }

  /** `format_entry` runs to completion: with a non-empty query, some single
      line of the stripped entry contains it (otherwise `next(...)` raises). */
  predicate Formattable(query: string, entry: string) {
    query == "" || SomeLineMatches(query, EntryLines(entry))
  }

  /** Line `m` is the first line containing the query. */
  predicate IsFirstMatch(query: string, lines: seq<string>, m: int) {
    && 0 <= m < |lines|
    && LineMatches(query, lines[m])
    && forall j :: 0 <= j < m ==> !LineMatches(query, lines[j])
  }

  /** The anchor line of a window: line 0 for an empty query, otherwise the
      first line that contains the query. */
  predicate IsAnchor(query: string, lines: seq<string>, pos: int) {
    if query == "" then pos == 0 && |lines| > 0 else IsFirstMatch(query, lines, pos)
  }

  /** `next(l for l in entry_list if query in l.lower())`: the first matching
      line, as a value. */
  function FirstMatchingLine(query: string, lines: seq<string>): (line: string)
    requires SomeLineMatches(query, lines)
    ensures exists m :: IsFirstMatch(query, lines, m) && lines[m] == line
  {
    if LineMatches(query, lines[0]) then
      assert IsFirstMatch(query, lines, 0);
      lines[0]
    else
      var k :| 0 <= k < |lines| && LineMatches(query, lines[k]);
      assert LineMatches(query, lines[1..][k - 1]);
      var line := FirstMatchingLine(query, lines[1..]);
      var m :| IsFirstMatch(query, lines[1..], m) && lines[1..][m] == line;
      assert IsFirstMatch(query, lines, m + 1);
      line
  }

  /** `lines.index(line)`: the position of the first occurrence of a value. */
  function ListIndex(lines: seq<string>, line: string): (k: nat)
    requires line in lines
    ensures k < |lines| && lines[k] == line
    ensures forall j :: 0 <= j < k ==> lines[j] != line
  {
    if lines[0] == line then 0 else 1 + ListIndex(lines[1..], line)
  }

  /** `pos` of `format_entry`: looking the first matching line up again by
      value finds it at the position where it was first matched, because no
      earlier line can be equal to it. */
  function AnchorIndex(query: string, lines: seq<string>): (pos: nat)
    requires |lines| >= 1
    requires query == "" || SomeLineMatches(query, lines)
    ensures IsAnchor(query, lines, pos)
  {
    if query != "" then
      var line := FirstMatchingLine(query, lines);
      var pos := ListIndex(lines, line);
      var m :| IsFirstMatch(query, lines, m) && lines[m] == line;
      assert pos <= m;
      pos
    else 0
  }

  /** The anchor's predecessor is shown: it exists and is not blank. */
  predicate ShowsBefore(lines: seq<string>, pos: int)
    requires 0 <= pos < |lines|
  {
    pos > 0 && !Blank(lines[pos - 1])
  }

  /** The anchor's successor is shown: it exists and is not blank. */
  predicate ShowsAfter(lines: seq<string>, pos: int)
    requires 0 <= pos < |lines|
  {
    pos + 1 < |lines| && !Blank(lines[pos + 1])
  }

  /** No element of `w` contains a line break. */
  predicate NoBreaks(w: seq<string>) {
    forall k :: 0 <= k < |w| ==> NL !in w[k]
  }

  lemma NoBreaksConcat(a: seq<string>, b: seq<string>)
    requires NoBreaks(a) && NoBreaks(b)
    ensures NoBreaks(a + b)
  {
    forall k | 0 <= k < |a + b| ensures NL !in (a + b)[k] {
      if k < |a| {
        assert (a + b)[k] == a[k];
      } else {
        assert (a + b)[k] == b[k - |a|];
      }
    }
  }

  /** The context before the anchor (`if pos > 0` and `if line:` on the
      stripped predecessor): present exactly when the predecessor exists and
      is not all whitespace, and then it is that line trimmed, behind an
      ellipsis. */
  function Leading(lines: seq<string>, pos: nat): (b: seq<string>)
    requires pos < |lines| && NoBreaks(lines)
    ensures |b| <= 1 && NoBreaks(b)
    ensures |b| == 1 <==> ShowsBefore(lines, pos)
    ensures |b| == 1 ==> b[0] == Ellipsis + Strip(lines[pos - 1])
  {
    if pos > 0 then
      StripEmptyIff(lines[pos - 1]);
      var line := Strip(lines[pos - 1]);
      if line != "" then
        StripKeepsOut(lines[pos - 1], NL);
        assert NL !in Ellipsis;
        [Ellipsis + line]
      else []
    else []
  }

  /** The context after the anchor (`if len(entry_list) > pos + 1` and
      `if line:` on the stripped successor): present exactly when the successor
      exists and is not all whitespace, and then it is that line trimmed,
      followed by an ellipsis. */
  function Trailing(lines: seq<string>, pos: nat): (a: seq<string>)
    requires pos < |lines| && NoBreaks(lines)
    ensures |a| <= 1 && NoBreaks(a)
    ensures |a| == 1 <==> ShowsAfter(lines, pos)
    ensures |a| == 1 ==> a[0] == Strip(lines[pos + 1]) + Ellipsis
  {
    if |lines| > pos + 1 then
      StripEmptyIff(lines[pos + 1]);
      var line := Strip(lines[pos + 1]);
      if line != "" then
        StripKeepsOut(lines[pos + 1], NL);
        assert NL !in Ellipsis;
        [line + Ellipsis]
      else []
    else []
  }

  /** The `context` list of `format_entry`. */
  function Window(lines: seq<string>, pos: nat): (w: seq<string>)
    requires pos < |lines| && NoBreaks(lines)
    ensures NoBreaks(w)
    ensures 1 <= |w| <= 3
  {
    var before, after := Leading(lines, pos), Trailing(lines, pos);
    assert NoBreaks([lines[pos]]);
    NoBreaksConcat(before, [lines[pos]]);
    NoBreaksConcat(before + [lines[pos]], after);
    before + [lines[pos]] + after
  }

  /** `shown`, the lines of a label, is the window around anchor `pos`: the
      trimmed predecessor marked with a leading ellipsis if it is shown, the
      untrimmed anchor line, the trimmed successor marked with a trailing
      ellipsis if it is shown, and nothing else. */
  predicate WindowAround(lines: seq<string>, pos: int, shown: seq<string>)
    requires 0 <= pos < |lines|
  {
    var before := if ShowsBefore(lines, pos) then 1 else 0;
    var after := if ShowsAfter(lines, pos) then 1 else 0;
    && |shown| == before + 1 + after
    && shown[before] == lines[pos]
    && (ShowsBefore(lines, pos) ==> shown[0] == Ellipsis + Strip(lines[pos - 1]))
    && (ShowsAfter(lines, pos) ==> shown[|shown| - 1] == Strip(lines[pos + 1]) + Ellipsis)
  }

  /** Every shown line is a line of the stripped entry, verbatim or trimmed and
      marked with an ellipsis. */
  predicate DrawnFrom(lines: seq<string>, shown: seq<string>) {
    forall k :: 0 <= k < |shown| ==>
      exists j :: 0 <= j < |lines| && LineDrawnFrom(shown[k], lines[j])
  }

  /** `line` is `source` verbatim, or trimmed and marked with an ellipsis. */
  predicate LineDrawnFrom(line: string, source: string) {
    line == source || line == Ellipsis + Strip(source) || line == Strip(source) + Ellipsis
  }

  /** `format_entry(icon, query, entry)` without the icon: the label joins the
      window around the anchor line, and the payload is the entry itself,
      unstripped. */
  function FormatEntry(query: string, entry: string): (r: DisplayResult)
    requires Formattable(query, entry)
    ensures r.payload == entry
  {
    DisplayResult(Label(query, entry), entry)
  }

  /** `'\n'.join(context)`: the label of a formatted entry. Split at its line
      breaks it gives back the `context` list, and it has one line break fewer
      than that list has lines. */
  function Label(query: string, entry: string): (l: string)
    requires Formattable(query, entry)
    ensures var lines := EntryLines(entry);
      var w := Window(lines, AnchorIndex(query, lines));
      Split(l, NL) == w && CountChar(l, NL) == |w| - 1
  {
    var lines := EntryLines(entry);
    var w := Window(lines, AnchorIndex(query, lines));
    SplitJoin(w, NL);
    Join(w, NL)
  }

  /** The label has one to three lines, one more than it has line breaks. */
  lemma FormatEntryLineCount(query: string, entry: string)
    requires Formattable(query, entry)
    ensures var name := FormatEntry(query, entry).name;
      && 1 <= |Split(name, NL)| <= 3
      && CountChar(name, NL) + 1 == |Split(name, NL)|
  {
    var l := Label(query, entry);
  }

  /** The label, read back line by line, is the window around the anchor line,
      and every line of it is drawn from the stripped entry. */
  lemma FormatEntryWindow(query: string, entry: string)
    requires Formattable(query, entry)
    ensures var lines := EntryLines(entry);
      var shown := Split(FormatEntry(query, entry).name, NL);
      && DrawnFrom(lines, shown)
      && (exists pos :: IsAnchor(query, lines, pos) && WindowAround(lines, pos, shown))
      && forall pos :: IsAnchor(query, lines, pos) ==> WindowAround(lines, pos, shown)
  {
    var lines := EntryLines(entry);
    var pos := AnchorIndex(query, lines);
    var l := Label(query, entry);
    AnchorUnique(query, lines, pos);
    WindowShape(lines, pos);
  }

  /** The `context` list is the window around `pos` and is drawn from the lines. */
  lemma WindowShape(lines: seq<string>, pos: nat)
    requires pos < |lines| && NoBreaks(lines)
    ensures WindowAround(lines, pos, Window(lines, pos))
    ensures DrawnFrom(lines, Window(lines, pos))
  {
    WindowShapeAround(lines, pos);
    WindowShapeDrawn(lines, pos);
  }

  lemma WindowShapeAround(lines: seq<string>, pos: nat)
    requires pos < |lines| && NoBreaks(lines)
    ensures WindowAround(lines, pos, Window(lines, pos))
  {
    ThreeParts(Leading(lines, pos), lines[pos], Trailing(lines, pos));
  }

  /** Where the parts of `before + [x] + after` sit, for parts of at most one
      element. */
  lemma ThreeParts(before: seq<string>, x: string, after: seq<string>)
    requires |before| <= 1 && |after| <= 1
    ensures var w := before + [x] + after;
      && |w| == |before| + 1 + |after|
      && w[|before|] == x
      && (|before| == 1 ==> w[0] == before[0])
      && (|after| == 1 ==> w[|w| - 1] == after[0])
  {
  }

  lemma WindowShapeDrawn(lines: seq<string>, pos: nat)
    requires pos < |lines| && NoBreaks(lines)
    ensures DrawnFrom(lines, Window(lines, pos))
  {
    var w := Window(lines, pos);
    forall k | 0 <= k < |w| ensures exists j :: 0 <= j < |lines| && LineDrawnFrom(w[k], lines[j]) {
      var j := DrawnAt(lines, pos, k);
    }
  }

  /** The source line of the `k`-th line of the window: the predecessor for a
      leading context line, the anchor itself, or the successor for a trailing
      context line. */
  lemma DrawnAt(lines: seq<string>, pos: nat, k: nat) returns (j: nat)
    requires pos < |lines| && NoBreaks(lines) && k < |Window(lines, pos)|
    ensures j < |lines| && LineDrawnFrom(Window(lines, pos)[k], lines[j])
  {
    var before, after := Leading(lines, pos), Trailing(lines, pos);
    var w := Window(lines, pos);
    assert w == before + [lines[pos]] + after;
    ThreeParts(before, lines[pos], after);
    if k < |before| {
      assert k == 0;
      j := DrawnBefore(lines, pos, before, w);
    } else if k == |before| {
      assert w[k] == lines[pos];
      j := pos;
    } else {
      assert |after| == 1 && k == |w| - 1;
      j := DrawnAfter(lines, pos, after, w);
    }
  }

  /** A leading context line is drawn from the predecessor. */
  lemma DrawnBefore(lines: seq<string>, pos: nat, before: seq<string>, w: seq<string>) returns (j: nat)
    requires pos < |lines| && NoBreaks(lines)
    requires before == Leading(lines, pos) && |before| == 1
    requires |w| > 0 && w[0] == before[0]
    ensures j < |lines| && LineDrawnFrom(w[0], lines[j])
  {
    j := pos - 1;
  }

  /** A trailing context line is drawn from the successor. */
  lemma DrawnAfter(lines: seq<string>, pos: nat, after: seq<string>, w: seq<string>) returns (j: nat)
    requires pos < |lines| && NoBreaks(lines)
    requires after == Trailing(lines, pos) && |after| == 1
    requires |w| > 0 && w[|w| - 1] == after[0]
    ensures j < |lines| && LineDrawnFrom(w[|w| - 1], lines[j])
  {
    j := pos + 1;
  }

  /** There is only one anchor. */
  lemma AnchorUnique(query: string, lines: seq<string>, pos: int)
    requires IsAnchor(query, lines, pos)
    ensures forall p :: IsAnchor(query, lines, p) ==> p == pos
  {
  }

  /** Nothing on a label is made up: every line of the stripped entry, and its
      trimmed form, occurs in the original entry. */
  lemma {:induction false} EntryLinesFromEntry(entry: string)
    ensures forall j :: 0 <= j < |EntryLines(entry)| ==>
      Contains(entry, EntryLines(entry)[j]) && Contains(entry, Strip(EntryLines(entry)[j]))
  {
    var lines := EntryLines(entry);
    StripContained(entry);
    SplitPiecesContained(Strip(entry), NL);
    forall j | 0 <= j < |lines|
      ensures Contains(entry, lines[j]) && Contains(entry, Strip(lines[j]))
    {
      ContainsTransitive(entry, Strip(entry), lines[j]);
      StripContained(lines[j]);
      ContainsTransitive(entry, lines[j], Strip(lines[j]));
    }
  }

  /** An entry that can be formatted for a non-empty query contains that query
      once lowered, so the formatter only ever sees entries the history filter
      would have let through. */
  lemma {:induction false} FormattableMatches(query: string, entry: string)
    requires query != "" && Formattable(query, entry)
    ensures Contains(Lower(entry), query)
  {
    var lines := EntryLines(entry);
    var k :| 0 <= k < |lines| && LineMatches(query, lines[k]);
    EntryLinesFromEntry(entry);
    ContainsLower(entry, lines[k]);
    ContainsTransitive(Lower(entry), Lower(lines[k]), query);
  }
}
