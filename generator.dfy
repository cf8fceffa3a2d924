/**
 * The command-line entry point (`main`): abort when the input document
 * does not exist, extract the column, abort when it is empty, and only
 * then generate the C source.
 */
module Generator {
  import opened Common
  import opened Extractor
  import opened Emitter

  /** How a run ends: the input is missing, the column is empty (nothing is
      written in either case), or the generated lines and the reported
      count of parsed vectors. */
  datatype Outcome = InputNotFound | NoEntries | Generated(lines: seq<string>, vectorsParsed: nat)

  /** `main`. Whether the input path exists is given as `inputExists`; the
      document as its pages; `skipFirstDash` is the integer option, on when
      non-zero. */
  method Run(inputExists: bool, pages: seq<Option<Table>>, column: nat, startPage: nat,
             endPage: Option<int>, skipFirstDash: int)
    returns (outcome: Outcome)
    ensures outcome.InputNotFound? <==> !inputExists
    ensures outcome.NoEntries? <==> inputExists && ColumnEntries(pages, column, startPage, endPage) == []
    ensures outcome.Generated? ==>
      var names := ColumnEntries(pages, column, startPage, endPage);
      && names != []
      && outcome.lines == EmittedLines(names, skipFirstDash != 0)
      && outcome.vectorsParsed == |Ids(names)|
  {
    if !inputExists {
      return InputNotFound;
    }
    var functionNames := ExtractColumn(pages, column, startPage, endPage);
    if functionNames == [] {
      return NoEntries;
    }
    var lines, vectorsParsed := GenerateCFile(functionNames, skipFirstDash != 0);
    outcome := Generated(lines, vectorsParsed);
  }
}
