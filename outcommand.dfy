/** The fill command as out/extension.js runs it: find which struct the
    cursor is in, gather completion items for it (from the completion
    provider, then from the workspace symbols, then from the Go files
    themselves), keep the fields not yet set, and insert one line per field
    after the nearest `{` at or above the cursor. */
module OutCommand {
  import opened Options
  import opened Text
  import opened Patterns
  import opened GoFields
  import opened Render
  import opened Completion
  import opened Document
  import opened OutScan
  import opened OutFill
  import opened OutFallback

  // ---------------------------------------------------------------------
  // Which struct the cursor is in
  // ---------------------------------------------------------------------

  /** The struct to fill and whether it is a nested literal. */
  datatype Target = Target(name: string, nested: bool)

  /** `structName` and `isNestedStruct`: when the trimmed cursor line is a
      `key: value` line, the first `Field: Type{` line above it (the search
      stops at a line holding `:=` or `func `); else a `Field: Type{` on the
      cursor line itself; else the initializer nearest the cursor; else
      nothing. */
  function ResolveStruct(lines: seq<string>, cur: nat): Option<Target>
    requires cur < |lines|
  {
    var above := if IsFieldAssignment(Trim(lines[cur])) then NestedAbove(lines, cur - 1) else None;
    match above
    case Some(name) => Some(Target(name, true))
    case None =>
      match NestedLiteral(lines[cur])
      case Some(name) => Some(Target(name, true))
      case None =>
        match NearestInitializer(lines, cur)
        case Some(m) => Some(Target(m.name, false))
        case None => None
  }

  /** The opening steps of the command handler. */
  method ResolveStructName(lines: seq<string>, cur: nat) returns (target: Option<Target>)
    requires cur < |lines|
    ensures target == ResolveStruct(lines, cur)
  {
    var structName: Option<string> := None;
    var isNestedStruct := false;
    var currentLineText := Trim(lines[cur]);
    if IsFieldAssignment(currentLineText) {
      structName := FindNestedAbove(lines, cur);
      isNestedStruct := structName.Some?;
    }
    if structName.None? {
      var nestedStructMatch := NestedLiteral(lines[cur]);
      if nestedStructMatch.Some? {
        structName := nestedStructMatch;
        isNestedStruct := true;
      } else {
        var structMatch := FindNearestInitializer(lines, cur);
        if structMatch.None? {
          return None;
        }
        structName := Some(structMatch.value.name);
      }
    }
    return Some(Target(structName.value, isNestedStruct));
  }

  /** No target is found exactly when none of the three searches finds a
      name. */
  lemma ResolveStructNone(lines: seq<string>, cur: nat)
    requires cur < |lines|
    ensures ResolveStruct(lines, cur).None? <==>
              NestedLiteral(lines[cur]).None? && NearestInitializer(lines, cur).None?
              && (IsFieldAssignment(Trim(lines[cur])) ==> NestedAbove(lines, cur - 1).None?)
  {
  }

  /** A nested target is named by a `Field: Type{` line at or above the
      cursor line. */
  lemma ResolveStructNested(lines: seq<string>, cur: nat) returns (l: nat)
    requires cur < |lines| && ResolveStruct(lines, cur).Some? && ResolveStruct(lines, cur).value.nested
    ensures l <= cur && NestedLiteral(lines[l]) == Some(ResolveStruct(lines, cur).value.name)
  {
    if IsFieldAssignment(Trim(lines[cur])) && NestedAbove(lines, cur - 1).Some? {
      l := NestedAboveLine(lines, cur - 1);
    } else {
      l := cur;
    }
  }

  /** A top-level target is named by the initializer nearest the cursor, and
      the cursor line then holds no `Field: Type{`. */
  lemma ResolveStructTopLevel(lines: seq<string>, cur: nat)
    requires cur < |lines| && ResolveStruct(lines, cur).Some? && !ResolveStruct(lines, cur).value.nested
    ensures NestedLiteral(lines[cur]).None? && NearestInitializer(lines, cur).Some?
            && ResolveStruct(lines, cur).value.name == NearestInitializer(lines, cur).value.name
  {
  }

  // ---------------------------------------------------------------------
  // Gathering the completion items
  // ---------------------------------------------------------------------

  /** What asking the completion provider at a symbol's definition gives:
      a thrown error leaves the items as they were. */
  datatype SymbolLookup = Threw | Returned(result: CompletionResult)

  /** A workspace symbol with the answer of the completion provider at its
      definition. */
  datatype WorkspaceSymbol = WorkspaceSymbol(name: string, isStruct: bool, lookup: SymbolLookup)

  /** A symbol the loop asks about: a struct named exactly `name`. */
  predicate Asked(s: WorkspaceSymbol, name: string) {
    s.name == name && s.isStruct
  }

  /** A result with at least one item. */
  predicate HasItems(r: CompletionResult) {
    r.ItemList? && r.items != []
  }

  /** The loop over the workspace symbols from `result`: each symbol asked
      about replaces the result with the provider's answer, unless the call
      threw, and an answer with items ends the loop. */
  function AfterSymbols(result: CompletionResult, symbols: seq<WorkspaceSymbol>, name: string): CompletionResult
    decreases |symbols|
  {
    if symbols == [] then result
    else if Asked(symbols[0], name) then
      match symbols[0].lookup
      case Threw => AfterSymbols(result, symbols[1..], name)
      case Returned(r) => if HasItems(r) then r else AfterSymbols(r, symbols[1..], name)
    else AfterSymbols(result, symbols[1..], name)
  }

  /** The `for (const symbol of workspaceSymbols)` loop. */
  method LookUpSymbols(result: CompletionResult, symbols: seq<WorkspaceSymbol>, name: string)
    returns (completionItems: CompletionResult)
    ensures completionItems == AfterSymbols(result, symbols, name)
  {
    completionItems := result;
    var i := 0;
    while i < |symbols|
      invariant 0 <= i <= |symbols|
      invariant AfterSymbols(completionItems, symbols[i..], name) == AfterSymbols(result, symbols, name)
      decreases |symbols| - i
    {
      assert symbols[i..][1..] == symbols[i + 1..];
      var symbol := symbols[i];
      if symbol.name == name && symbol.isStruct {
        if symbol.lookup.Returned? {
          completionItems := symbol.lookup.result;
          if completionItems.ItemList? && |completionItems.items| > 0 {
            return;
          }
        }
      }
      i := i + 1;
    }
  }

  /** The symbol loop ends on the first symbol asked about whose answer has
      items, and gives that answer; when there is none, it gives the last
      answer returned for a symbol asked about, or the starting result when
      there is no such answer. */
  lemma {:induction false} AfterSymbolsFirst(result: CompletionResult, symbols: seq<WorkspaceSymbol>, name: string)
    returns (i: nat)
    ensures i <= |symbols|
    ensures forall j :: 0 <= j < i && Asked(symbols[j], name) ==>
              !(symbols[j].lookup.Returned? && HasItems(symbols[j].lookup.result))
    ensures i < |symbols| ==> Asked(symbols[i], name) && symbols[i].lookup.Returned?
                              && HasItems(symbols[i].lookup.result)
                              && AfterSymbols(result, symbols, name) == symbols[i].lookup.result
    ensures i == |symbols| ==>
              !HasItems(AfterSymbols(result, symbols, name)) || AfterSymbols(result, symbols, name) == result
    ensures i == |symbols| && AfterSymbols(result, symbols, name) != result ==>
              exists j :: 0 <= j < |symbols| && Asked(symbols[j], name)
                          && symbols[j].lookup == Returned(AfterSymbols(result, symbols, name))
    decreases |symbols|
  {
    if symbols == [] {
      i := 0;
    } else {
      var s := symbols[0];
      var next := if Asked(s, name) && s.lookup.Returned? then s.lookup.result else result;
      if Asked(s, name) && s.lookup.Returned? && HasItems(next) {
        i := 0;
      } else {
        var k := AfterSymbolsFirst(next, symbols[1..], name);
        i := k + 1;
        assert AfterSymbols(result, symbols, name) == AfterSymbols(next, symbols[1..], name);
        forall j | 0 <= j < i && Asked(symbols[j], name)
          ensures !(symbols[j].lookup.Returned? && HasItems(symbols[j].lookup.result))
        {
          if j > 0 { assert symbols[j] == symbols[1..][j - 1]; }
        }
        if i == |symbols| && AfterSymbols(result, symbols, name) != result {
          if AfterSymbols(next, symbols[1..], name) != next {
            var j :| 0 <= j < |symbols[1..]| && Asked(symbols[1..][j], name)
                     && symbols[1..][j].lookup == Returned(AfterSymbols(next, symbols[1..], name));
            assert symbols[j + 1] == symbols[1..][j];
          } else {
            assert next != result;
          }
        }
      }
    }
  }

  /** The items the handler ends up with: the completion provider's list
      when it has items; otherwise the result of the symbol loop; and when
      there is still no list, the fallback read from the Go files. An empty
      list from the provider or the symbols counts as a list, so it never
      reaches the fallback. */
  function Gathered(completion: CompletionResult, symbols: seq<WorkspaceSymbol>, files: seq<string>, name: string): CompletionResult
  {
    var afterSymbols := if HasItems(completion) then completion else AfterSymbols(completion, symbols, name);
    if afterSymbols.ItemList? then afterSymbols
    else match FallbackItems(files, name)
      case Some(list) => ItemList(list)
      case None => NoItemList
  }

  // ---------------------------------------------------------------------
  // The command
  // ---------------------------------------------------------------------

  /** What a run of the command ends in. */
  datatype OutOutcome =
    | NotRecognized           // no struct found near the cursor
    | NoStructInfo            // no item list from any source
    | AllFilled               // every field is already set
    | Insert(at: Position, text: string)

  /** The outcome of the command, step by step as the handler computes it. */
  function FillOutcome(lines: seq<string>, pos: Position, completion: CompletionResult,
                       symbols: seq<WorkspaceSymbol>, files: seq<string>): OutOutcome
    requires ValidPosition(lines, pos)
  {
    match ResolveStruct(lines, pos.line)
    case None => NotRecognized
    case Some(target) =>
      match Gathered(completion, symbols, files, target.name)
      case NoItemList => NoStructInfo
      case ItemList(items) =>
        var fields := NewFields(items, ExistingText(lines, target.name, pos.line, target.nested));
        if fields == [] then AllFilled
        else Insert(InsertPosition(lines, pos), OutFillCode(lines, pos.line, fields))
  }

  /** The command handler. `completion` is what the completion provider
      answers for the struct, `symbols` what the workspace symbol provider
      answers for its name, and `files` the texts of the workspace's Go
      files. */
  method FillStruct(lines: seq<string>, pos: Position, completion: CompletionResult,
                    symbols: seq<WorkspaceSymbol>, files: seq<string>) returns (outcome: OutOutcome)
    requires ValidPosition(lines, pos)
    ensures outcome == FillOutcome(lines, pos, completion, symbols, files)
  {
    var target := ResolveStructName(lines, pos.line);
    if target.None? {
      return NotRecognized;
    }
    var structName := target.value.name;
    var completionItems := completion;
    if completionItems.NoItemList? || |completionItems.items| == 0 {
      completionItems := LookUpSymbols(completionItems, symbols, structName);
    }
    if completionItems.NoItemList? {
      var pushed := ParseFallback(files, structName);
      if pushed.Some? {
        completionItems := ItemList(pushed.value);
      }
    }
    assert completionItems == Gathered(completion, symbols, files, structName);
    if completionItems.NoItemList? {
      return NoStructInfo;
    }
    var existingText := ComputeExistingText(lines, structName, pos.line, target.value.nested);
    var fields := CollectNewFields(completionItems.items, existingText);
    if |fields| == 0 {
      return AllFilled;
    }
    var fillCode := GenerateFillCode(lines, pos.line, fields);
    if fillCode != "" {
      var insertPosition := FindInsertPosition(lines, pos);
      outcome := Insert(insertPosition, fillCode);
    } else {
      assert false;
    }
  }

  // ---------------------------------------------------------------------
  // What the command promises
  // ---------------------------------------------------------------------

  /** An insertion adds, for the fields not yet set, the field block right
      after the first `{` of the nearest line at or above the cursor that
      holds one, indented like that line; with no such line, at the cursor,
      with no indentation when a short declaration opens just above and the
      cursor line's otherwise. */
  lemma InsertedBlock(lines: seq<string>, pos: Position, completion: CompletionResult,
                      symbols: seq<WorkspaceSymbol>, files: seq<string>)
    requires ValidPosition(lines, pos)
    requires FillOutcome(lines, pos, completion, symbols, files).Insert?
    ensures var target := ResolveStruct(lines, pos.line).value;
            var items := Gathered(completion, symbols, files, target.name);
            var outcome := FillOutcome(lines, pos, completion, symbols, files);
            items.ItemList?
            && var fields := NewFields(items.items, ExistingText(lines, target.name, pos.line, target.nested));
            fields != []
            && match BraceAbove(lines, pos.line)
               case Some(l) =>
                 outcome == Insert(AfterBrace(lines, l), FieldsBlock(fields, LeadingSpace(lines[l])))
               case None =>
                 outcome.at == pos && outcome.text == FieldsBlock(fields, FillIndent(lines, pos.line))
  {
    var target := ResolveStruct(lines, pos.line).value;
    var items := Gathered(completion, symbols, files, target.name);
    var fields := NewFields(items.items, ExistingText(lines, target.name, pos.line, target.nested));
    OutFillCodeIsBlock(lines, pos.line, fields);
    InsertAtNearestBrace(lines, pos);
  }

  /** The symbol loop started from an empty list stays on an empty list
      when every symbol's lookup threw or answered an empty list. */
  lemma {:induction false} AfterSymbolsKeepsEmpty(symbols: seq<WorkspaceSymbol>, name: string)
    requires forall j :: 0 <= j < |symbols| ==> symbols[j].lookup.Threw? || symbols[j].lookup == Returned(ItemList([]))
    ensures AfterSymbols(ItemList([]), symbols, name) == ItemList([])
    decreases |symbols|
  {
    if symbols != [] {
      assert forall j :: 0 <= j < |symbols[1..]| ==> symbols[1..][j] == symbols[j + 1];
      AfterSymbolsKeepsEmpty(symbols[1..], name);
    }
  }

  /** An empty item list from the completion provider, with no symbol
      answering with items, ends in "all fields filled" without reading the
      Go files: the list is there, only empty. */
  lemma EmptyListReportsAllFilled(lines: seq<string>, pos: Position, symbols: seq<WorkspaceSymbol>, files: seq<string>)
    requires ValidPosition(lines, pos) && ResolveStruct(lines, pos.line).Some?
    requires forall j :: 0 <= j < |symbols| ==> symbols[j].lookup.Threw? || symbols[j].lookup == Returned(ItemList([]))
    ensures FillOutcome(lines, pos, ItemList([]), symbols, files) == AllFilled
  {
    AfterSymbolsKeepsEmpty(symbols, ResolveStruct(lines, pos.line).value.name);
  }

  /** Whatever the provider answers, the items used come from the first
      source that has a list: an answer with items is used as it is, and the
      Go files are read only when neither the provider nor the symbols give a
      list. */
  lemma GatheredSources(completion: CompletionResult, symbols: seq<WorkspaceSymbol>, files: seq<string>, name: string)
    ensures HasItems(completion) ==> Gathered(completion, symbols, files, name) == completion
    ensures !HasItems(completion) && AfterSymbols(completion, symbols, name).ItemList? ==>
              Gathered(completion, symbols, files, name) == AfterSymbols(completion, symbols, name)
    ensures !HasItems(completion) && AfterSymbols(completion, symbols, name).NoItemList? ==>
              (Gathered(completion, symbols, files, name).NoItemList? <==> FallbackItems(files, name).None?)
    ensures completion.NoItemList? && (forall j :: 0 <= j < |symbols| ==> !Asked(symbols[j], name)) ==>
              Gathered(completion, symbols, files, name)
              == match FallbackItems(files, name) case Some(list) => ItemList(list) case None => NoItemList
  {
    if completion.NoItemList? && (forall j :: 0 <= j < |symbols| ==> !Asked(symbols[j], name)) {
      var i := AfterSymbolsFirst(completion, symbols, name);
    }
  }

  /** Running the command again on a top-level literal once the block is in
      the document proposes none of the fields just inserted: each of their
      names now appears as a key. */
  lemma RefillSkipsInserted(items: seq<CompletionItem>, before: string, after: string, indent: string)
    requires forall k :: 0 <= k < |items| ==> items[k].labelText != [] && IsWordChar(items[k].labelText[0])
    ensures var fields := NewFields(items, before + after);
            var again := NewFields(items, before + FieldsBlock(fields, indent) + after);
            forall k, l :: 0 <= k < |again| && 0 <= l < |fields| ==> again[k].name != fields[l].name
  {
    var fields := NewFields(items, before + after);
    var d := before + FieldsBlock(fields, indent) + after;
    var idx := NewFieldsSelect(items, before + after);
    forall k | 0 <= k < |fields| ensures KeyName(fields[k]) {
      assert OutPick(items, before + after, fields, idx, k);
      assert fields[k].name == items[idx[k]].labelText;
    }
    BlockMentionsFields(before, fields, indent, after, d);
    NewFieldsNames(items, d);
  }
}
