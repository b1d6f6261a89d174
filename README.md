# go-struct-auto-fill, modelled in Dafny

go-struct-auto-fill is a VS Code extension for Go. It gives one command,
"fill struct". With the cursor inside a struct literal such as
`u := User{`, the command inserts one `Name: <zero value>,` line for each
field of the struct. The repository holds two versions of that command:

- `src/extension.ts`, the TypeScript source. It finds an initializer in the
  text before the cursor and asks the Go completion provider for items. It
  keeps the field items whose label has no `.`. It then inserts the field
  lines right after the first `{` of the cursor line, indented from that
  line or the line above.
- `out/extension.js`, the compiled JavaScript the extension runs, which
  was extended further. It first works out which struct the cursor is in:
  - a nested `Field: Type{` literal above a `key: value` line;
  - a nested literal on the cursor line;
  - or the initializer nearest the cursor, within ten lines.

  It gathers items from the completion provider, then from workspace
  symbols, then by reading the struct declaration from the Go files. It
  drops duplicate fields and fields the literal already sets. It then
  inserts the block after the nearest `{` at or above the cursor, with a
  closing indentation line.

The model follows both files. Helpers that the two files define
identically (`getDefaultValue`, `parseGoModules`, `parseStructFields`)
are modelled once, in `GoFields`.

Modules:

- `Text`: JavaScript string operations on `seq<char>` (`indexOf`, `trim`,
  `split`/`join`, `replace` of the first occurrence, `^\s*`, and ASCII
  `toLowerCase`).
- `Patterns`: each regular expression the code uses, as a hand-written
  matcher on the text that starts where a match is tried. A generic
  leftmost search gives the semantics of `match` and `test`. For `exec`
  with the `g` flag, the search resumes after a match, or one character
  later when there is none.
- `GoFields`: the field record, the default-value table, the module-line
  parser and the struct-body parser.
- `Render`: the generated field lines and the code block.
- `Completion`: completion items, and the filter loop of each version.
- `Document`: a document as its lines, a cursor position, and the text
  before the cursor.
- `SrcCommand`: the command of `src/extension.ts`.
- `OutScan`: the line-walking searches of `out/extension.js`:
  - the nearest initializer;
  - the nested literal above;
  - the start and end of the literal;
  - `existingText`;
  - the insertion position.
- `OutFill`: `generateFillCode` of `out/extension.js`.
- `OutFallback`: the fallback that reads the struct declaration from the
  Go files.
- `OutCommand`: the command of `out/extension.js`, end to end.

Each loop in the source is a method. Its `ensures` ties the result to a
function that takes the same steps, and lemmas state what those
functions compute. The answers of the editor's providers are inputs of
the command methods:
- the completion list;
- the workspace symbols, each with the answer obtained at its definition;
- the texts of the Go files.

## Model

| member | source | states |
|---|---|---|
| GoFields.DefaultIsNil | src/extension.ts:379-410 | `nil` is written exactly for pointer fields and for non-basic types holding both `[` and `]` |
| GoFields.DefaultIsZero | src/extension.ts:386-396 | `0` is written exactly for non-pointers whose lower-cased type, with its first `*` removed, is one of the six integer names |
| GoFields.DefaultIsBasicLiteral | src/extension.ts:386-401 | `""` is written exactly for a non-pointer `string`, `0.0` exactly for a non-pointer `float32` or `float64`, and `false` exactly for a non-pointer `bool`, the type compared after removing its first `*` and lower-casing |
| GoFields.DefaultIsComposite | src/extension.ts:402-408 | the default ends in `}` exactly when the type is neither a pointer, a basic name nor bracketed; it is then the type as written followed by `{}` |
| GoFields.DefaultIgnoresCase | src/extension.ts:386 | two non-pointer types that differ only in ASCII case get the same basic literal |
| GoFields.DefaultOfUpperCaseInteger | src/extension.ts:386-395 | `Int64` is treated as an integer and gets `0` |
| GoFields.DefaultOfNarrowInteger | src/extension.ts:388-408 | `int8` is not in the table and gets `int8{}` |
| GoFields.ModuleOfLine | src/extension.ts:278-279 | the path is the line's first blank-separated token (the text up to the first blank, or the whole line); a version exists exactly when the line holds a blank, and it is then the second token (the text after the first blank, up to the next blank or the end) |
| GoFields.ReadsTokensUnique | src/extension.ts:278-279 | the first and second tokens determine the module: two readings of one line are equal |
| GoFields.ParseGoModules | src/extension.ts:273-281 | one module per non-blank line of the output, in order, holding that line's first token as path and its second token, if any, as version |
| GoFields.NonBlankSelect | src/extension.ts:274-276 | the lines kept are exactly the lines that are not all white space, every one of them, in their original order |
| GoFields.ModuleLineRoundTrip | src/extension.ts:278-279 | reading back the line printed for a module without white space gives the module |
| GoFields.ParseGoModulesRoundTrip | src/extension.ts:273-281 | parsing the joined lines of a non-empty module list gives the list back |
| GoFields.ExecFields | src/extension.ts:298-306 | the `exec` loop pushes the field of each match, in order |
| GoFields.ParseStructFields | src/extension.ts:283-309 | the fields of the first brace pair free of inner braces, nothing when there is none |
| GoFields.TokenField | src/extension.ts:299-305 | every parsed field is well formed, and it is a pointer exactly when its type token starts with `*` |
| GoFields.StructFieldsShape | src/extension.ts:298-306 | every field found in a body is well formed |
| GoFields.StructFieldsRoundTrip | src/extension.ts:295-306 | a body declaring well-formed fields one per line parses back to those fields, in order |
| GoFields.FieldsOfFirstBody | src/extension.ts:287-292 | a definition whose first `{` opens a brace-free body is parsed from that body |
| GoFields.ParseDeclaredStruct | src/extension.ts:283-309 | `parseStructFields` on a struct declaration returns exactly the declared fields |
| Patterns.FirstMatch | src/extension.ts:112 | a non-global match is at the leftmost position where the pattern matches, and no earlier position matches |
| Patterns.StructFieldAt | out/extension.js:505 | a field match is a non-empty word name and a type token of type characters with at most a leading `*` |
| Patterns.LooseFieldAt | out/extension.js:222 | a fallback match starts with a non-empty word name and consumes at least one character |
| Patterns.ShortDeclarationAt | out/extension.js:570 | a `name := Type{` match starts with a word character and ends at its `{` |
| Patterns.BraceBodyAt | src/extension.ts:287 | a brace match is `{`, a body free of braces, then `}` |
| Patterns.DeclarationAt | out/extension.js:214 | a matched declaration body holds no `}` |
| Render.FieldLines | src/extension.ts:364-367 | one line per field, in field order, each `indent`, four spaces, `name: default,` |
| Render.FieldsCodeLines | src/extension.ts:369 | for single-line fields, the code is an empty line, the field lines in order and an empty line |
| Render.FieldsBlockLines | out/extension.js:622-646 | the block is an empty line, the field lines and a last line holding only the enclosing indentation |
| Render.BlockMentionsFields | out/extension.js:328-332 | any text holding the block has a `name:` key for each of its fields |
| Completion.CollectFields | src/extension.ts:141-160 | the loop returns `SrcFields` of the items |
| Completion.SrcFieldsSelect | src/extension.ts:141-160 | the collected fields are exactly the field items whose label has no `.`, in item order, with the type's first `*` moved into `isPointer` |
| Completion.CollectNewFields | out/extension.js:251-345 | the loop with its `processedFields` set returns `NewFields` of the items |
| Completion.NewFieldsSelect | out/extension.js:251-345 | each collected field comes from an eligible item (a field kind, no `.` in the label, not already set), the first eligible item with that label, in item order; every eligible label is collected |
| Completion.NewFieldsNames | out/extension.js:257-343 | the collected names are distinct, contain no `.`, and none is already set in the existing text |
| Completion.NamesSnoc | out/extension.js:343 | adding a field adds its name to the processed set |
| SrcCommand.GenerateFillCode | src/extension.ts:317-353 | the code uses the cursor line's indentation if that line holds `{`, else the line above's if it does, else it is empty |
| SrcCommand.SrcFillCodeLines | src/extension.ts:327-352 | the code is empty exactly when neither line holds `{`; otherwise it is an empty line, the field lines under the brace line's indentation, and an empty line |
| SrcCommand.FillStruct | src/extension.ts:112-179 | each outcome (no initializer, no item list, no field, no brace, insertion) happens exactly under its condition; an insertion is the fill code, placed after the cursor line's first `{` |
| SrcCommand.InsertAfterBraceAbove | src/extension.ts:177 | with the brace only on the line above, the code goes to column 0 of the cursor line |
| OutScan.FindNearest | out/extension.js:105-121 | the loop over the lines within ten of the cursor replaces its match only by a strictly nearer one, exactly as `NearestFrom` steps from the window start |
| OutScan.FindNearestInitializer | out/extension.js:105-127 | the loop run with the initializer pattern returns `NearestInitializer` |
| OutScan.NearestInitializerIsNearest | out/extension.js:105-127 | the initializer chosen is, among the lines at most ten away, one with the smallest distance to the cursor, the upper one when two tie; none is chosen only when no line in the window has one |
| OutScan.NearestFromKeeps | out/extension.js:109-126 | each loop step keeps the nearest match seen so far |
| OutScan.WindowBounds | out/extension.js:106-108 | the window is exactly the lines within ten of the cursor that exist |
| OutScan.FindNestedAbove | out/extension.js:75-93 | the upward loop returns `NestedAbove` |
| OutScan.ScanUpFinds | out/extension.js:75-93 | the name found comes from the nearest accepted line at or above the start; no line in between is accepted or stops the search |
| OutScan.StartFrom | out/extension.js:273-288 | the start line found opens the literal of the struct, at or above the cursor |
| OutScan.StartFromIsNearest | out/extension.js:273-288 | the search ends at the nearest line at or above the start that opens the literal or, other than the cursor line, holds `:=` or `func `; no line passed over does either; the result is that line if it opens the literal, and -1 if it is a stop line or the walk ran past line 0 |
| OutScan.FindStructStart | out/extension.js:273-288 | the loop returns `StartFrom` from the cursor line |
| OutScan.FindStructEnd | out/extension.js:290-315 | the nested loops return `StructEnd` |
| OutScan.StructEndIsFirstClose | out/extension.js:290-315 | the end line is the first line from the cursor down holding a `}` that brings the brace count back to zero after a `{`; it is -1 exactly when there is none |
| OutScan.ComputeExistingText | out/extension.js:270-326 | `existingText` is the lines of the nested literal each followed by a newline, or the whole document |
| OutScan.LinesTextHolds | out/extension.js:318-320 | every line of the literal appears in the collected text, followed by a newline |
| OutScan.BraceAbove | out/extension.js:373-390 | the line found is the nearest one at or above the start holding `{`; with none, no such line exists |
| OutScan.FindInsertPosition | out/extension.js:361-397 | the computation returns `InsertPosition` |
| OutScan.BraceLineFromAbove | out/extension.js:373-390 | the upward loop finds the nearest line above holding `{` |
| OutScan.InsertAtNearestBrace | out/extension.js:361-397 | the code goes right after the first `{` of the nearest line at or above the cursor holding one, else at the cursor |
| OutFill.FindNearMatch | out/extension.js:568-586 | the whole-document `exec` loop returns the first match that starts on a line near the cursor, as `NearMatchFrom` defines it |
| OutFill.ExecStartsMatch | out/extension.js:570-572 | every offset the `g`-flag `exec` loop visits holds a match of the pattern, and the offsets increase |
| OutFill.FirstExecNone | out/extension.js:570-586 | the search finds nothing exactly when no offset the `exec` loop visits passes the test |
| OutFill.FirstExecFinds | out/extension.js:570-586 | the text found is the match at the first visited offset that passes the test; no earlier visited offset passes it |
| OutFill.NearMatchFinds | out/extension.js:570-586 | the declaration found is the match at the first visited offset on the cursor line or at most five lines above it, and nothing is found exactly when no visited offset lies on such a line |
| OutFill.NearMatchShape | out/extension.js:570-586 | for a pattern whose matches start with a word character and end with `{`, so does what the search returns |
| OutFill.NearDeclaration | out/extension.js:564-587 | the declaration found starts with a word character and ends with its `{` |
| OutFill.GenerateFillCode | out/extension.js:524-647 | the function returns `OutFillCode`, including its upward loop and the document search |
| OutFill.BracePrefixIndent | out/extension.js:535-545 | the text up to a line's first `{` has that line's indentation |
| OutFill.BraceTextIndent | out/extension.js:535-611 | the indentation of `braceText` is that of the nearest line at or above the cursor holding `{`, or none for a short declaration found nearby, or otherwise the cursor line's |
| OutFill.OutFillCodeIsBlock | out/extension.js:609-646 | the code is empty for no fields and otherwise the field block under that indentation; nested literals close at the same indentation, because the four added spaces are removed again |
| OutFill.OutFillCodeLines | out/extension.js:589-646 | the code's lines are an empty line, the field lines, and a line holding the indentation |
| OutFallback.PushFieldItems | out/extension.js:222-240 | the `exec` loop pushes one field item per match, in order, and leaves the list absent when there is no match |
| OutFallback.ListOfSnoc | out/extension.js:229-239 | pushing the item of one more match extends the list by that item, creating the list on the first push |
| OutFallback.ParseFallback | out/extension.js:209-243 | the file loop returns `FallbackItems` |
| OutFallback.FallbackFirstDeclaration | out/extension.js:209-243 | only the first file declaring the struct is read; the result is that file's items, and it is absent when no file declares it |
| OutFallback.LooseItemsShape | out/extension.js:222-239 | every fallback item is a field whose label is a non-empty word, so it has no `.` |
| OutFallback.LooseItemsRoundTrip | out/extension.js:222-239 | a body declaring fields one per line yields one item per field, in order |
| OutFallback.DeclaredItemField | out/extension.js:226-236 | the item for a declared field reads back as that field |
| OutFallback.FallbackReadsDeclaration | out/extension.js:209-243 | a Go file that starts with the struct's declaration gives exactly its fields, in order |
| Text.BeforeFirstSplits | out/extension.js:226 | `split('//')[0]` is the longest prefix without `//`; the separator follows it when it is not the whole text |
| Text.SplitJoin | src/extension.ts:275 | splitting the join of separator-free parts gives the parts back |
| Text.JoinSplit | src/extension.ts:275 | joining the parts of a split gives the text back |
| Text.Trim | src/extension.ts:276 | the trimmed text is empty exactly when the line is all white space, and otherwise neither starts nor ends with white space |
| Text.TrimStrips | src/extension.ts:276 | the trimmed text is a slice of the input with only white space before it and only white space after it |
| Text.IndexOf | src/extension.ts:334 | `indexOf` is the first position of the character, or -1 when it does not occur |
| OutCommand.ResolveStructName | out/extension.js:64-130 | the resolution returns `ResolveStruct` |
| OutCommand.ResolveStructNone | out/extension.js:64-130 | no struct is found exactly when none of the three searches finds one |
| OutCommand.ResolveStructNested | out/extension.js:68-101 | a nested target is named by a `Field: Type{` line at or above the cursor |
| OutCommand.ResolveStructTopLevel | out/extension.js:96-127 | a top-level target is the nearest initializer, chosen only when the cursor line holds no nested literal |
| OutCommand.LookUpSymbols | out/extension.js:170-204 | the symbol loop returns `AfterSymbols` |
| OutCommand.AfterSymbolsFirst | out/extension.js:179-198 | the answer with items for the first struct symbol of that name wins; a symbol whose lookup throws is skipped |
| OutCommand.AfterSymbolsKeepsEmpty | out/extension.js:179-198 | starting from an empty list, the list stays empty when every lookup throws or gives an empty list |
| OutCommand.GatheredSources | out/extension.js:160-244 | provider items are used as they are; the symbols are asked only when the provider gave none; the Go files are read only when neither gave a list |
| OutCommand.EmptyListReportsAllFilled | out/extension.js:170-350 | an empty list from the provider, with no symbol answering with items, ends in "all fields filled" without reading the Go files |
| OutCommand.FillStruct | out/extension.js:64-408 | the handler returns `FillOutcome` |
| OutCommand.InsertedBlock | out/extension.js:346-401 | an insertion is the block of the new fields, placed after the nearest `{` at or above the cursor with that line's indentation, else at the cursor |
| OutCommand.RefillSkipsInserted | out/extension.js:323-332 | running the command again on a top-level literal after the insertion proposes none of the fields just inserted |

## Left out

- Editor calls are left out: the command registration, the temporary document `src/extension.ts` opens, `editor.edit`, messages and the output channel. The command returns an outcome that names the message or the insertion.
- The completion provider, the workspace symbol provider and `findFiles` are inputs. A call that throws is treated like a call that returns no list. A symbol query that throws is an empty symbol list.
- `findStructDefinition` (`src/extension.ts:198-271`, `out/extension.js:422-486`), `go list`, the file system, activation and `deactivate` are not modelled. Neither command calls `findStructDefinition`.
- The model does not follow `src/extension.ts:145` and `out/extension.js:256` on the `item.label` object form (`item.label.label`). Labels are plain strings.
- A completion result whose `items` is not an array is treated as having no item list.
- `toLowerCase` and the `i` flag of the key test fold only ASCII letters.
- Strings are sequences of UTF-16 code units taken as characters. Iteration by code point (`for (const char of lineText)`) does not matter, because only `{` and `}` are counted.
- Documents use `\n` line ends. A `\r` left by CRLF text is an ordinary character.
- `out/extension.js` builds regular expressions from the struct name and the field label. The model treats those names as literal text. A name holding regular-expression syntax other than `.` is not modelled.
- OutScan.ComputeExistingText: `existingText` is recomputed for every item in the source. It does not change inside the loop, so the model computes it once.
- OutFallback.PushFieldItems: the regular expression is passed as the matcher parameter `fieldRegex`. The guard on a zero-length match never fires for the pattern used.
- GoFields.ExecFields, OutFill.FindNearMatch and OutScan.FindNearest take their regular expression as a matcher parameter too; the callers pass the one the source uses. A match of length zero would make the source's `exec` loop run forever. The patterns used never match the empty string, so the model's guard for that case never fires.
- OutCommand.FillStruct: the last `else` of the handler (`out/extension.js:405-408`) cannot be reached, because the code is never empty when there are fields. The model asserts that.
- Reordering existing keys and keeping their values, as the Go sample files show before and after a fill, is not something either command does, so it is not modelled.
