/** CodePiece: one segment of an inspected document, with its line bookkeeping. */
module CodePieces {
  import opened Common
  import opened MatchCutter
  import opened CodeManagerUtility

  class CodePiece {
    /** The text of the piece; callers may overwrite it freely through SetCode. */
    var code: string
    /** The regex match the piece was cut from; None for a literal run or an added piece. */
    const Match: Option<RegexMatch>
    var lineCount: int
    var EndWithNewLine: bool
    /** Whether the inspection that made the piece tracks line numbers (settings.AddLineIndex). */
    const calcLineCount: bool

    /**
     * The line data always describes the current text: with tracking on it is
     * GetLineCount(code); with tracking off the count is -1 and the piece
     * never claims to end with '\n'.
     */
    predicate Valid()
      reads this
    {
      if calcLineCount then EndWithNewLine == GetLineCount(code).0 && lineCount == GetLineCount(code).1
      else lineCount == -1 && !EndWithNewLine
    }

    /** The piece made by CreateCodePiece(Match): its text is the matched text and it keeps the match. */
    constructor FromMatch(m: RegexMatch, calcLineCount: bool)
      ensures code == m.Value && Match == Some(m) && this.calcLineCount == calcLineCount
      ensures Valid()
    {
      code := m.Value;
      Match := Some(m);
      this.calcLineCount := calcLineCount;
      lineCount := -1;
      EndWithNewLine := false;
      new;
      CalcLineCount();
    }

    /** The piece made by CreateCodePiece(string): the given text and no match. */
    constructor FromString(code: string, calcLineCount: bool)
      ensures this.code == code && Match == None && this.calcLineCount == calcLineCount
      ensures Valid()
    {
      this.code := code;
      Match := None;
      this.calcLineCount := calcLineCount;
      lineCount := -1;
      EndWithNewLine := false;
      new;
      CalcLineCount();
    }

    /** The setter of Code: stores the text and recomputes the line data from it. */
    method SetCode(value: string)
      requires Valid()
      modifies this
      ensures code == value && Valid()
      ensures calcLineCount ==> EndWithNewLine == GetLineCount(value).0 && lineCount == GetLineCount(value).1
    {
      code := value;
      CalcLineCount();
    }

    /** CalcLineCount: brings the line data in line with the text; EndWithNewLine is only ever written with tracking on. */
    method CalcLineCount()
      modifies this`lineCount, this`EndWithNewLine
      requires calcLineCount || !EndWithNewLine
      ensures Valid()
      ensures !calcLineCount ==> EndWithNewLine == old(EndWithNewLine)
    {
      if calcLineCount {
        var (endWithNewLine, count) := GetLineCount(code);
        EndWithNewLine := endWithNewLine;
        lineCount := count;
      } else {
        lineCount := -1;
      }
    }

    /** What the piece adds to the line index of the pieces after it (the step of GetLineIndex's walk). */
    function LineAdvance(): (r: int)
      reads this
      ensures Valid() && calcLineCount ==> r == CountOf('\n', code)
    {
      LineAdvanceIsNewlineCount(code);
      if EndWithNewLine then lineCount else lineCount - 1
    }
  }
}
