/** The fill command as src/extension.ts writes it: find a struct
    initializer before the cursor, ask for completion items at the cursor,
    keep the field items and insert one line per field right after the
    cursor line's first `{`. */
module SrcCommand {
  import opened Options
  import opened Text
  import opened Patterns
  import opened GoFields
  import opened Render
  import opened Completion
  import opened Document

  /** The code `generateFillCode` returns: the field lines under the
      indentation of the cursor line when it holds `{`, else under that of
      the line above when that one holds `{`, else nothing. */
  function SrcFillCode(lines: seq<string>, cur: nat, fields: seq<GoField>): string
    requires cur < |lines|
  {
    if '{' in lines[cur] then FieldsCode(fields, LeadingSpace(lines[cur]))
    else if cur > 0 && '{' in lines[cur - 1] then FieldsCode(fields, LeadingSpace(lines[cur - 1]))
    else ""
  }

  /** `generateFillCode`, with its mutable `braceIndex`. */
  method GenerateFillCode(lines: seq<string>, cur: nat, fields: seq<GoField>) returns (code: string)
    requires cur < |lines|
    ensures code == SrcFillCode(lines, cur, fields)
  {
    var text := lines[cur];
    var indent := LeadingSpace(text);
    var braceIndex := IndexOf(text, '{');
    if braceIndex == -1 {
      if cur > 0 {
        var prevText := lines[cur - 1];
        braceIndex := IndexOf(prevText, '{');
        if braceIndex != -1 {
          var prevIndent := LeadingSpace(prevText);
          code := FieldsCode(fields, prevIndent);
          return;
        }
      }
      code := "";
      return;
    }
    code := FieldsCode(fields, indent);
  }

  /** The generated code is empty exactly when neither the cursor line nor
      the line above holds `{`; otherwise it is an empty line, one line per
      field indented four spaces deeper than the line holding the brace, and
      an empty line. */
  lemma SrcFillCodeLines(lines: seq<string>, cur: nat, fields: seq<GoField>)
    requires cur < |lines| && fields != []
    requires forall k :: 0 <= k < |lines| ==> '\n' !in lines[k]
    requires forall k :: 0 <= k < |fields| ==> SingleLineField(fields[k])
    ensures var code := SrcFillCode(lines, cur, fields);
            code == "" <==> '{' !in lines[cur] && (cur == 0 || '{' !in lines[cur - 1])
    ensures var braceLine := if '{' in lines[cur] then cur else cur - 1;
            SrcFillCode(lines, cur, fields) != "" ==>
              0 <= braceLine && '{' in lines[braceLine]
              && Split(SrcFillCode(lines, cur, fields), '\n')
                 == [""] + FieldLines(fields, LeadingSpace(lines[braceLine])) + [""]
  {
    var code := SrcFillCode(lines, cur, fields);
    if code != "" {
      var braceLine := if '{' in lines[cur] then cur else cur - 1;
      var indent := LeadingSpace(lines[braceLine]);
      assert '\n' !in indent by {
        assert forall k :: 0 <= k < |indent| ==> indent[k] == lines[braceLine][k];
      }
      FieldsCodeLines(fields, indent);
    }
  }

  /** What a run of the command ends in. */
  datatype SrcOutcome =
    | NotAnInitializer       // no struct initializer before the cursor
    | NoStructInfo           // the completion provider gave no item list
    | NoFields               // no item is a field
    | NoBrace                // no `{` on the cursor line or the line above
    | Insert(at: Position, text: string)

  /** The command handler. `completion` is what the completion provider
      returns at the cursor. */
  method FillStruct(lines: seq<string>, pos: Position, completion: CompletionResult) returns (outcome: SrcOutcome)
    requires ValidPosition(lines, pos)
    ensures outcome.NotAnInitializer? <==> Initializer(TextBefore(lines, pos)).None?
    ensures outcome.NoStructInfo? <==> Initializer(TextBefore(lines, pos)).Some? && completion.NoItemList?
    ensures outcome.NoFields? <==>
              Initializer(TextBefore(lines, pos)).Some? && completion.ItemList? && SrcFields(completion.items) == []
    ensures outcome.NoBrace? <==>
              Initializer(TextBefore(lines, pos)).Some? && completion.ItemList? && SrcFields(completion.items) != []
              && SrcFillCode(lines, pos.line, SrcFields(completion.items)) == ""
    ensures outcome.Insert? ==>
              completion.ItemList? && SrcFields(completion.items) != []
              && outcome.text == SrcFillCode(lines, pos.line, SrcFields(completion.items)) && outcome.text != ""
              && outcome.at == Position(pos.line, IndexOf(lines[pos.line], '{') + 1)
  {
    var structName := Initializer(TextBefore(lines, pos));
    if structName.None? {
      return NotAnInitializer;
    }
    if completion.NoItemList? {
      return NoStructInfo;
    }
    var fields := CollectFields(completion.items);
    if |fields| == 0 {
      return NoFields;
    }
    var fillCode := GenerateFillCode(lines, pos.line, fields);
    if fillCode == "" {
      return NoBrace;
    }
    var text := lines[pos.line];
    outcome := Insert(Position(pos.line, IndexOf(text, '{') + 1), fillCode);
  }

  /** When the brace is on the line above, the code goes to the start of the
      cursor line, right after the line break that follows that brace. */
  lemma InsertAfterBraceAbove(lines: seq<string>, pos: Position, items: seq<CompletionItem>)
    requires ValidPosition(lines, pos) && pos.line > 0
    requires '{' !in lines[pos.line] && '{' in lines[pos.line - 1]
    ensures IndexOf(lines[pos.line], '{') + 1 == 0
    ensures SrcFields(items) != [] ==> SrcFillCode(lines, pos.line, SrcFields(items)) != ""
  {
  }
}
