/** The first pass of the patcher (add_imports.py): in the list of lines of
    App.tsx, find the first line containing a literal anchor and insert one
    new line right after it; this is done twice, for two anchors. */
module AnchorInsert {
  import opened Strings

  const UseAppContextAnchor: string := "import { useAppContext }"
  const ThemeProviderImport: string := "import { ThemeProvider } from './context/ThemeContext';\n"
  const LoadingSpinnerAnchor: string := "import LoadingSpinner"
  const ThemeToggleImport: string := "import ThemeToggle from './components/ThemeToggle';\n"

  /** Index of the first line containing `anchor`, or `|lines|` when none does. */
  function FirstMatch(lines: seq<string>, anchor: string): (k: nat)
    ensures k <= |lines|
    ensures k < |lines| ==> Contains(lines[k], anchor)
    ensures forall j :: 0 <= j < k ==> !Contains(lines[j], anchor)
  {
    if lines == [] then 0
    else if Contains(lines[0], anchor) then 0
    else 1 + FirstMatch(lines[1..], anchor)
  }

  /** The list after one anchored insertion: `newLine` goes right after the
      first line containing `anchor`; with no such line the list is unchanged. */
  function InsertedAfterFirst(lines: seq<string>, anchor: string, newLine: string): seq<string>
  {
    var k := FirstMatch(lines, anchor);
    if k == |lines| then lines else lines[..k + 1] + [newLine] + lines[k + 1..]
  }

  /** One `for i, line in enumerate(lines)` loop: insert after the first line
      holding the anchor, then `break`. The insertion happens inside the loop,
      and the loop stops at once, so the index never runs over the shifted list. */
  method InsertAfterFirst(lines: seq<string>, anchor: string, newLine: string) returns (result: seq<string>)
    ensures result == InsertedAfterFirst(lines, anchor, newLine)
  {
    result := lines;
    var i := 0;
    while i < |result|
      invariant 0 <= i <= |lines| && result == lines
      invariant forall j :: 0 <= j < i ==> !Contains(lines[j], anchor)
    {
      if Contains(result[i], anchor) {
        result := result[..i + 1] + [newLine] + result[i + 1..];
        break;
      }
      i := i + 1;
    }
  }

  /** The whole first pass: both import lines inserted, the second search
      running over the list the first one produced. */
  function ImportsAdded(lines: seq<string>): seq<string>
  {
    InsertedAfterFirst(
      InsertedAfterFirst(lines, UseAppContextAnchor, ThemeProviderImport),
      LoadingSpinnerAnchor, ThemeToggleImport)
  }

  method AddImports(lines: seq<string>) returns (result: seq<string>)
    ensures result == ImportsAdded(lines)
  {
    result := InsertAfterFirst(lines, UseAppContextAnchor, ThemeProviderImport);
    result := InsertAfterFirst(result, LoadingSpinnerAnchor, ThemeToggleImport);
  }

  /** No-op law, both ways: the list comes back unchanged exactly when no line
      holds the anchor. */
  lemma NoMatchIsNoOp(lines: seq<string>, anchor: string, newLine: string)
    ensures InsertedAfterFirst(lines, anchor, newLine) == lines
            <==> forall j :: 0 <= j < |lines| ==> !Contains(lines[j], anchor)
  {
    var k := FirstMatch(lines, anchor);
    if k < |lines| {
      assert |InsertedAfterFirst(lines, anchor, newLine)| == |lines| + 1;
    }
  }

  /** Splice shape: with the first match at index `k`, the result is one line
      longer, agrees with the input up to and including line `k`, holds
      `newLine` at `k + 1`, and continues with the input's lines from `k + 1`. */
  lemma SpliceShape(lines: seq<string>, anchor: string, newLine: string, k: nat)
    requires k < |lines| && Contains(lines[k], anchor)
    requires forall j :: 0 <= j < k ==> !Contains(lines[j], anchor)
    ensures var r := InsertedAfterFirst(lines, anchor, newLine);
            |r| == |lines| + 1 && r[..k + 1] == lines[..k + 1] && r[k + 1] == newLine
            && r[k + 2..] == lines[k + 1..]
  {
    var r := InsertedAfterFirst(lines, anchor, newLine);
    assert r[k + 2..] == lines[k + 1..];
  }

  /** Nothing is removed or altered: deleting the one inserted line gives the
      input back, and when there is a match that line sits right after a line
      holding the anchor. */
  lemma OriginalLinesKept(lines: seq<string>, anchor: string, newLine: string)
    ensures var r := InsertedAfterFirst(lines, anchor, newLine);
            r == lines
            || (exists p :: 0 < p < |r| && r[p] == newLine && Contains(r[p - 1], anchor)
                            && r[..p] + r[p + 1..] == lines)
  {
    var k := FirstMatch(lines, anchor);
    var r := InsertedAfterFirst(lines, anchor, newLine);
    if k < |lines| {
      assert r[k + 1] == newLine && r[k] == lines[k];
      assert r[..k + 1] + r[k + 2..] == lines;
    }
  }

  /** First match only: every line after the first matching one, whether or not
      it holds the anchor too, keeps its content and just moves down by one. */
  lemma FirstMatchOnly(lines: seq<string>, anchor: string, newLine: string, j: nat)
    requires j < |lines| && Contains(lines[j], anchor)
    requires exists i :: 0 <= i < j && Contains(lines[i], anchor)
    ensures var r := InsertedAfterFirst(lines, anchor, newLine);
            |r| == |lines| + 1 && r[j + 1] == lines[j] && (j + 2 < |r| ==> r[j + 2] == lines[j + 1])
  {
    var k := FirstMatch(lines, anchor);
    var i :| 0 <= i < j && Contains(lines[i], anchor);
    assert k <= i;
  }

  /** The anchor line survives an insertion (it is still in the result, at or
      before its old position), so the list has a line holding the anchor
      before and after the pass alike. */
  lemma AnchorSurvives(lines: seq<string>, anchor: string, newLine: string)
    requires FirstMatch(lines, anchor) < |lines|
    ensures FirstMatch(InsertedAfterFirst(lines, anchor, newLine), anchor) < |lines| + 1
    ensures |InsertedAfterFirst(lines, anchor, newLine)| == |lines| + 1
  {
    var k := FirstMatch(lines, anchor);
    var r := InsertedAfterFirst(lines, anchor, newLine);
    assert r[k] == lines[k];
    assert FirstMatch(r, anchor) <= k;
  }

  /** Non-idempotence: when both anchors are present, running the pass on its
      own output inserts two more lines, so the import lines are duplicated. */
  lemma {:induction false} ImportsNotIdempotent(lines: seq<string>)
    requires FirstMatch(lines, UseAppContextAnchor) < |lines|
    requires FirstMatch(lines, LoadingSpinnerAnchor) < |lines|
    ensures |ImportsAdded(lines)| == |lines| + 2
    ensures |ImportsAdded(ImportsAdded(lines))| == |lines| + 4
    ensures ImportsAdded(ImportsAdded(lines)) != ImportsAdded(lines)
  {
    ImportsGrowByTwo(lines);
    ImportsGrowByTwo(ImportsAdded(lines));
  }

  lemma ImportsGrowByTwo(lines: seq<string>)
    requires FirstMatch(lines, UseAppContextAnchor) < |lines|
    requires FirstMatch(lines, LoadingSpinnerAnchor) < |lines|
    ensures |ImportsAdded(lines)| == |lines| + 2
    ensures FirstMatch(ImportsAdded(lines), UseAppContextAnchor) < |ImportsAdded(lines)|
    ensures FirstMatch(ImportsAdded(lines), LoadingSpinnerAnchor) < |ImportsAdded(lines)|
  {
    var first := InsertedAfterFirst(lines, UseAppContextAnchor, ThemeProviderImport);
    AnchorSurvives(lines, UseAppContextAnchor, ThemeProviderImport);
    StillFound(lines, UseAppContextAnchor, ThemeProviderImport, LoadingSpinnerAnchor);
    AnchorSurvives(first, LoadingSpinnerAnchor, ThemeToggleImport);
    StillFound(first, LoadingSpinnerAnchor, ThemeToggleImport, UseAppContextAnchor);
  }

  /** An insertion for one anchor keeps every line holding any other text. */
  lemma StillFound(lines: seq<string>, anchor: string, newLine: string, other: string)
    requires FirstMatch(lines, other) < |lines|
    ensures FirstMatch(InsertedAfterFirst(lines, anchor, newLine), other)
            < |InsertedAfterFirst(lines, anchor, newLine)|
  {
    var k := FirstMatch(lines, anchor);
    var o := FirstMatch(lines, other);
    var r := InsertedAfterFirst(lines, anchor, newLine);
    if k < |lines| {
      var p := if o <= k then o else o + 1;
      assert r[p] == lines[o];
    }
  }
}
