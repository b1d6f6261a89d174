/** The editor state the command reads: the lines of the document and the
    cursor. Lines are joined with `\n`. */
module Document {
  import opened Text

  /** A zero-based line and character offset. */
  datatype Position = Position(line: nat, character: nat)

  /** A position inside the document. */
  predicate ValidPosition(lines: seq<string>, pos: Position) {
    pos.line < |lines| && pos.character <= |lines[pos.line]|
  }

  /** `document.getText()`: the whole document. */
  function FullText(lines: seq<string>): string {
    Join(lines, '\n')
  }

  /** `document.getText(new Range(new Position(0, 0), position))`. */
  function TextBefore(lines: seq<string>, pos: Position): string
    requires ValidPosition(lines, pos)
  {
    Join(lines[..pos.line] + [lines[pos.line][..pos.character]], '\n')
  }
}
