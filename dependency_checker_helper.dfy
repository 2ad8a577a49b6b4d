/**
 * The two helpers of the checker: stripping Gradle's display decoration from
 * a project name, and cutting each violation line into the two cells of a
 * row of the HTML report.
 */
module DependencyCheckerHelper {
  import opened Wrappers
  import opened KotlinStrings

  const Quote: string := "'"
  const Arrow: string := "-->"

  /**
   * `extractProjectInfo`: Gradle shows a project as `project ':app:feature'`;
   * the project path is the second piece of a split on the single quote,
   * and an input without a quote is returned as it is. The Kotlin result type
   * is nullable, but the function always returns a value.
   */
  function ExtractProjectInfo(input: string): (r: Option<string>)
    ensures r.Some?
    ensures '\'' !in input ==> r.value == input
    ensures '\'' !in r.value
  {
    var parts := Split(input, Quote);
    ContainsChar(input, '\'');
    if |parts| >= 2 then
      ContainsChar(parts[1], '\'');
      Some(parts[1])
    else
      Some(input)
  }

  /**
   * With a quote at position `i` and none before it, the result is the text
   * right after that quote up to the next quote, or to the end of the input
   * when there is no second quote.
   */
  lemma ExtractBetweenQuotes(input: string, i: nat)
    requires i < |input| && input[i] == '\''
    requires '\'' !in input[..i]
    ensures var v := ExtractProjectInfo(input).value;
      && i + 1 + |v| <= |input|
      && v == input[i + 1..i + 1 + |v|]
      && '\'' !in v
      && (i + 1 + |v| == |input| || input[i + 1 + |v|] == '\'')
  {
    assert input[i..i + 1] == Quote;
    forall j | 0 <= j < i ensures !Occurs(input, Quote, j) {
      assert input[..i][j] == input[j];
    }
    SplitFirstTwo(input, Quote, i);
    var v := ExtractProjectInfo(input).value;
    var rest := input[i + 1..];
    assert v == FirstPiece(rest, Quote);
    if |v| < |rest| {
      assert rest[|v|..|v| + 1] == Quote;
      assert input[i + 1 + |v|] == rest[|v|..|v| + 1][0];
    }
  }

  /** Gradle's display name of a project, `project '<path>'`, gives back the path. */
  lemma ExtractDisplayName(path: string)
    requires '\'' !in path
    ensures ExtractProjectInfo("project '" + path + "'") == Some(path)
  {
    var input := "project '" + path + "'";
    assert input[..8] == "project ";
    ExtractBetweenQuotes(input, 8);
    var v := ExtractProjectInfo(input).value;
    assert input[9..] == path + "'";
    assert v == (path + "'")[..|v|];
    assert (path + "'")[|path|] == '\'';
    assert forall k :: 0 <= k < |path| ==> input[9 + k] == path[k];
  }

  /** Extraction is idempotent: an extracted name holds no quote, so it comes back unchanged. */
  lemma ExtractIdempotent(input: string)
    ensures ExtractProjectInfo(ExtractProjectInfo(input).value) == ExtractProjectInfo(input)
  {
  }

  /** One row of the report table: the current module and the module it must not depend on. */
  datatype Row = Row(currentModule: string, forbiddenModule: string)

  /**
   * The row `generateHtml` builds for one violation line: the line is split
   * on `-->`; the first cell is the trimmed first piece, the second cell the
   * trimmed second piece, or empty when the line has no arrow.
   */
  function ViolationRow(violation: string): (row: Row)
    ensures !Contains(violation, Arrow) ==> row == Row(Trim(violation), "")
    ensures row.currentModule == [] || !IsWhitespace(row.currentModule[0])
    ensures row.currentModule == [] || !IsWhitespace(row.currentModule[|row.currentModule| - 1])
    ensures row.forbiddenModule == [] || !IsWhitespace(row.forbiddenModule[0])
    ensures row.forbiddenModule == [] || !IsWhitespace(row.forbiddenModule[|row.forbiddenModule| - 1])
  {
    var parts := Split(violation, Arrow);
    var currentModule := Trim(parts[0]);
    var forbiddenModule := if |parts| >= 2 then Trim(parts[1]) else "";
    Row(currentModule, forbiddenModule)
  }

  /**
   * With the first arrow at position `i`, the first cell is the trimmed text
   * before it and the second cell the trimmed text after it, up to the next
   * arrow or the end of the line.
   */
  lemma ViolationRowCells(violation: string, i: nat)
    requires Occurs(violation, Arrow, i)
    requires forall j :: 0 <= j < i ==> !Occurs(violation, Arrow, j)
    ensures ViolationRow(violation).currentModule == Trim(violation[..i])
    ensures ViolationRow(violation).forbiddenModule == Trim(FirstPiece(violation[i + 3..], Arrow))
  {
    SplitFirstTwo(violation, Arrow, i);
  }

  /**
   * The rows `generateHtml` joins into its table: one row per violation, in
   * the iteration order of the violation set.
   */
  function TableRows(violations: seq<string>): (rows: seq<Row>)
    ensures |rows| == |violations|
    ensures forall k :: 0 <= k < |rows| ==> rows[k] == ViolationRow(violations[k])
  {
    if violations == [] then
      []
    else
      var first, rest := ViolationRow(violations[0]), TableRows(violations[1..]);
      assert forall k :: 1 <= k <= |rest| ==> ([first] + rest)[k] == rest[k - 1];
      [first] + rest
  }
}
