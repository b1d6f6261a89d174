/** The last resort of out/extension.js when no completion items are
    available: read the struct's declaration straight from the Go files of
    the workspace. The first file holding `type NAME struct {...}` decides;
    every `(\w+)\s+([^\n;]+)` match in its body becomes a field item whose
    detail is the type text before any `//` comment, trimmed. */
module OutFallback {
  import opened Options
  import opened Text
  import opened Patterns
  import opened GoFields
  import opened Completion

  /** The item pushed for one field match: the type text before any `//`
      comment, trimmed, is its detail. */
  function ItemOfToken(tok: FieldToken): CompletionItem {
    CompletionItem(tok.name, FieldKind, Some(Trim(BeforeFirst(tok.typeToken, "//"))))
  }

  /** The matches of `fieldRegex`, `(\w+)\s+([^\n;]+)`, in a declaration body. */
  function LooseTokensIn(body: string): seq<FieldToken> {
    TokensIn(body, LooseFieldAt)
  }

  /** One item per match, in order. */
  function ItemsOf(toks: seq<FieldToken>): seq<CompletionItem> {
    if toks == [] then [] else [ItemOfToken(toks[0])] + ItemsOf(toks[1..])
  }

  lemma ItemsOfCons(tok: FieldToken, toks: seq<FieldToken>)
    ensures ItemsOf([tok] + toks) == [ItemOfToken(tok)] + ItemsOf(toks)
  {
    assert ([tok] + toks)[1..] == toks;
  }

  /** One more match adds its item at the end. */
  lemma {:induction false} ItemsOfSnoc(toks: seq<FieldToken>, tok: FieldToken)
    ensures ItemsOf(toks + [tok]) == ItemsOf(toks) + [ItemOfToken(tok)]
    decreases |toks|
  {
    if toks != [] {
      assert (toks + [tok])[1..] == toks[1..] + [tok];
      ItemsOfSnoc(toks[1..], tok);
    }
  }

  /** The items pushed for a declaration body. */
  function LooseItemsIn(body: string): seq<CompletionItem> {
    ItemsOf(LooseTokensIn(body))
  }

  /** The body of the first declaration of `name` in a file's text. */
  function DeclarationIn(fileText: string, name: string): Option<string> {
    match FirstMatch(t => DeclarationAt(t, name), fileText)
    case Some((_, body)) => Some(body)
    case None => None
  }

  /** The items pushed so far. */
  function Pushed(items: Option<seq<CompletionItem>>): seq<CompletionItem> {
    match items
    case None => []
    case Some(list) => list
  }

  /** The item list after pushing the items of `toks`: missing until the
      first item is pushed. */
  function ListOf(toks: seq<FieldToken>): Option<seq<CompletionItem>> {
    if toks == [] then None else Some(ItemsOf(toks))
  }

  /** Pushing one more item. */
  lemma ListOfSnoc(toks: seq<FieldToken>, tok: FieldToken)
    ensures ListOf(toks + [tok]) == Push(ListOf(toks), ItemOfToken(tok))
  {
    ItemsOfSnoc(toks, tok);
  }

  /** The item list built from the matches of `at` in a body. */
  function MatchedItems(body: string, at: string -> Option<FieldToken>): Option<seq<CompletionItem>> {
    ListOf(TokensIn(body, at))
  }

  /** The items of a declaration body. */
  function BodyItems(body: string): Option<seq<CompletionItem>> {
    MatchedItems(body, LooseFieldAt)
  }

  /** `completionItems.items.push(item)`, creating the list first when missing. */
  function Push(items: Option<seq<CompletionItem>>, item: CompletionItem): Option<seq<CompletionItem>> {
    Some(Pushed(items) + [item])
  }

  /** The inner `while ((fieldMatch = fieldRegex.exec(fieldsContent)) !== null)`
      loop, with the regex given as `fieldRegex`; the item list is created,
      empty, just before the first push. */
  method PushFieldItems(fieldsContent: string, fieldRegex: string -> Option<FieldToken>)
    returns (items: Option<seq<CompletionItem>>)
    ensures items == MatchedItems(fieldsContent, fieldRegex)
  {
    items := None;
    var pos := 0;
    ghost var done: seq<FieldToken> := [];
    ScanStart(fieldsContent, fieldRegex);
    while pos < |fieldsContent|
      invariant ScannedTo(fieldsContent, pos, done, fieldRegex)
      invariant items.None? <==> done == []
      invariant items.Some? ==> items.value == ItemsOf(done)
      decreases |fieldsContent| - pos
    {
      var fieldMatch := fieldRegex(fieldsContent[pos..]);
      if fieldMatch.Some? && 0 < fieldMatch.value.length <= |fieldsContent| - pos {
        var tok := fieldMatch.value;
        MatchStep(fieldsContent, pos, done, fieldRegex, tok);
        ItemsOfSnoc(done, tok);
        items := Push(items, ItemOfToken(tok));
        done := done + [tok];
        pos := pos + tok.length;
      } else {
        MissStep(fieldsContent, pos, done, fieldRegex);
        pos := pos + 1;
      }
    }
    ScanDone(fieldsContent, done, fieldRegex);
  }

  /** At the end of the body every match has been seen. */
  lemma ScanDone(body: string, done: seq<FieldToken>, at: string -> Option<FieldToken>)
    requires ScannedTo(body, |body|, done, at)
    ensures ListOf(done) == MatchedItems(body, at)
  {
    assert body[|body|..] == [];
    assert done + [] == done;
  }

  /** The loop over the Go files: the first file declaring `name` ends the
      loop; its fields, if it has any, become the item list, which otherwise
      stays missing. */
  function FallbackItems(files: seq<string>, name: string): Option<seq<CompletionItem>>
  {
    if files == [] then None
    else match DeclarationIn(files[0], name)
      case Some(body) => BodyItems(body)
      case None => FallbackItems(files[1..], name)
  }

  /** The `for (const file of goFiles)` loop. */
  method ParseFallback(files: seq<string>, name: string) returns (items: Option<seq<CompletionItem>>)
    ensures items == FallbackItems(files, name)
  {
    items := None;
    var i := 0;
    while i < |files|
      invariant 0 <= i <= |files|
      invariant FallbackItems(files[i..], name) == FallbackItems(files, name)
      decreases |files| - i
    {
      assert files[i..][1..] == files[i + 1..];
      var found := DeclarationIn(files[i], name);
      if found.Some? {
        items := PushFieldItems(found.value, LooseFieldAt);
        return;
      }
      i := i + 1;
    }
  }

  /** The files looked at are those up to the first one declaring `name`:
      the result is that file's items when it has some, and missing when it
      has none or no file declares `name`. */
  lemma {:induction false} FallbackFirstDeclaration(files: seq<string>, name: string) returns (i: nat)
    ensures i <= |files| && forall j :: 0 <= j < i ==> DeclarationIn(files[j], name).None?
    ensures i == |files| ==> FallbackItems(files, name).None?
    ensures i < |files| ==> DeclarationIn(files[i], name).Some?
                            && FallbackItems(files, name) == BodyItems(DeclarationIn(files[i], name).value)
  {
    if files == [] {
      i := 0;
    } else if DeclarationIn(files[0], name).Some? {
      i := 0;
    } else {
      var j := FallbackFirstDeclaration(files[1..], name);
      i := j + 1;
      assert FallbackItems(files, name) == FallbackItems(files[1..], name);
      assert forall k :: 1 <= k < i ==> files[k] == files[1..][k - 1];
      if i < |files| {
        assert files[i] == files[1..][j];
      }
    }
  }

  /** Every match's name is a non-empty word. */
  lemma {:induction false} LooseTokensShape(body: string)
    ensures forall k :: 0 <= k < |LooseTokensIn(body)| ==>
              var name := LooseTokensIn(body)[k].name;
              name != [] && forall c :: 0 <= c < |name| ==> IsWordChar(name[c])
    decreases |body|
  {
    if body != [] {
      match LooseFieldAt(body) {
        case Some(tok) =>
          assert LooseTokensIn(body) == [tok] + LooseTokensIn(body[tok.length..]);
          LooseTokensShape(body[tok.length..]);
        case None =>
          assert LooseTokensIn(body) == LooseTokensIn(body[1..]);
          LooseTokensShape(body[1..]);
      }
    }
  }

  /** Every fallback item is a field whose label is a non-empty word, so the
      later filter never drops one for holding a `.`. */
  lemma LooseItemsShape(body: string)
    ensures forall k :: 0 <= k < |LooseItemsIn(body)| ==>
              var item := LooseItemsIn(body)[k];
              item.kind == FieldKind && item.labelText != [] && '.' !in item.labelText
              && forall c :: 0 <= c < |item.labelText| ==> IsWordChar(item.labelText[c])
  {
    LooseTokensShape(body);
    ItemsOfNames(LooseTokensIn(body));
  }

  lemma {:induction false} ItemsOfNames(toks: seq<FieldToken>)
    ensures |ItemsOf(toks)| == |toks|
    ensures forall k :: 0 <= k < |toks| ==> ItemsOf(toks)[k].labelText == toks[k].name && ItemsOf(toks)[k].kind == FieldKind
  {
    if toks != [] {
      ItemsOfNames(toks[1..]);
    }
  }

  // ---------------------------------------------------------------------
  // Reading back a declaration written one field per line
  // ---------------------------------------------------------------------

  /** The item a declared field line gives: its name and its type text. */
  function DeclaredItem(f: GoField): CompletionItem {
    CompletionItem(f.name, FieldKind, Some((if f.isPointer then "*" else "") + f.fieldType))
  }

  /** The items of declared fields, in order. */
  function DeclaredItems(fields: seq<GoField>): (r: seq<CompletionItem>)
    ensures |r| == |fields| && forall k :: 0 <= k < |fields| ==> r[k] == DeclaredItem(fields[k])
  {
    seq(|fields|, k requires 0 <= k < |fields| => DeclaredItem(fields[k]))
  }

  lemma DeclaredItemsCons(fields: seq<GoField>)
    requires fields != []
    ensures DeclaredItems(fields) == [DeclaredItem(fields[0])] + DeclaredItems(fields[1..])
  {
    var r := [DeclaredItem(fields[0])] + DeclaredItems(fields[1..]);
    forall k | 0 <= k < |fields| ensures r[k] == DeclaredItems(fields)[k] {
      if k > 0 {
        assert r[k] == DeclaredItems(fields[1..])[k - 1];
      }
    }
  }

  /** The item reads back as the field. */
  lemma DeclaredItemField(f: GoField)
    requires WellFormedField(f)
    ensures FieldOf(DeclaredItem(f)) == f
  {
    var star := if f.isPointer then "*" else "";
    DeclaredFieldParsed(f, 0);
    assert FieldOf(DeclaredItem(f)) == FieldOfToken(FieldToken(f.name, star + f.fieldType, 0));
  }

  /** The value run of a declared line stops at the line break. */
  lemma DeclaredValueRuns(ty: string, u: string, a: nat)
    requires a + |ty| < |u| && u[a..a + |ty|] == ty && u[a + |ty|] == '\n'
    requires forall k :: 0 <= k < |ty| ==> NotNewlineOrSemicolon(ty[k])
    ensures SpanEnd(u, a, NotNewlineOrSemicolon) == a + |ty|
  {
    assert forall k :: a <= k < a + |ty| ==> u[k] == ty[k - a];
    SpanEndAt(u, a, a + |ty|, NotNewlineOrSemicolon);
  }

  /** The loose field pattern at the start of `u` once its runs are known. */
  lemma LooseTokenFromRuns(u: string, n1: nat, e: nat)
    requires 0 < n1 && n1 + 1 < e <= |u|
    requires SpanEnd(u, 0, IsWordChar) == n1 && SpanEnd(u, n1, IsSpace) == n1 + 1
    requires NotNewlineOrSemicolon(u[n1 + 1]) && SpanEnd(u, n1 + 1, NotNewlineOrSemicolon) == e
    ensures LooseFieldAt(u) == Some(FieldToken(u[..n1], u[n1 + 1..e], e))
  {
  }

  /** The type text of a well-formed field, with its `*`. */
  lemma DeclaredTypeText(f: GoField, ty: string)
    requires WellFormedField(f) && ty == (if f.isPointer then "*" else "") + f.fieldType
    ensures ty != [] && forall k :: 0 <= k < |ty| ==> NotNewlineOrSemicolon(ty[k]) && !IsSpace(ty[k]) && ty[k] != '/'
  {
    forall k | 0 <= k < |ty|
      ensures NotNewlineOrSemicolon(ty[k]) && !IsSpace(ty[k]) && ty[k] != '/'
    {
      if !(f.isPointer && k == 0) {
        var i := if f.isPointer then k - 1 else k;
        assert ty[k] == f.fieldType[i];
        assert IsTypeChar(f.fieldType[i]);
      }
    }
  }

  /** The detail of a declared line's token is its whole type text. */
  lemma DeclaredDetail(ty: string)
    requires ty != [] && forall k :: 0 <= k < |ty| ==> !IsSpace(ty[k]) && ty[k] != '/'
    ensures Trim(BeforeFirst(ty, "//")) == ty
  {
    BeforeFirstAbsent(ty, "//");
    TrimUnspaced(ty);
  }

  /** One declared field, followed by the next line or the end of the body,
      is one match of the loose pattern. */
  lemma DeclaredLooseToken(f: GoField, ty: string, rest: string, u: string)
    requires WellFormedField(f) && FollowsLine(rest) && ty == (if f.isPointer then "*" else "") + f.fieldType
    requires u == f.name + " " + ty + rest
    ensures LooseFieldAt(u) == Some(FieldToken(u[..|f.name|], u[|f.name| + 1..|u| - |rest|], |u| - |rest|))
  {
    var star := if f.isPointer then "*" else "";
    assert u == f.name + " " + star + f.fieldType + rest;
    DeclaredNameRuns(f, star, rest, u);
    DeclaredValueRun(f, ty, rest, u);
    LooseTokenFromRuns(u, |f.name|, |u| - |rest|);
  }

  /** The value run of a declared line is its type text. */
  lemma DeclaredValueRun(f: GoField, ty: string, rest: string, u: string)
    requires WellFormedField(f) && FollowsLine(rest) && ty == (if f.isPointer then "*" else "") + f.fieldType
    requires u == f.name + " " + ty + rest
    ensures |f.name| + 1 < |u| - |rest| && NotNewlineOrSemicolon(u[|f.name| + 1])
    ensures SpanEnd(u, |f.name| + 1, NotNewlineOrSemicolon) == |u| - |rest|
  {
    DeclaredTypeText(f, ty);
    var a := |f.name| + 1;
    assert u[a..a + |ty|] == ty;
    assert u[a + |ty|] == rest[0];
    DeclaredValueRuns(ty, u, a);
    assert u[a] == ty[0];
  }

  /** No loose match starts at a character that is not a word character. */
  lemma LooseSkipsNonWord(t: string)
    requires t != [] && !IsWordChar(t[0])
    ensures LooseTokensIn(t) == LooseTokensIn(t[1..])
  {
    assert SpanEnd(t, 0, IsWordChar) == 0;
  }

  /** A text starting with a match gives that match, then the rest. */
  lemma LooseTokensAfterToken(u: string, tok: FieldToken)
    requires LooseFieldAt(u) == Some(tok)
    ensures LooseTokensIn(u) == [tok] + LooseTokensIn(u[tok.length..])
  {
  }

  /** A declared line contributes exactly one match, whose item is the line's. */
  lemma DeclaredLineLoose(f: GoField, rest: string) returns (tok: FieldToken)
    requires WellFormedField(f) && FollowsLine(rest)
    ensures LooseTokensIn(DeclaredLine(f) + rest) == [tok] + LooseTokensIn(rest)
    ensures ItemOfToken(tok) == DeclaredItem(f)
  {
    var ty := (if f.isPointer then "*" else "") + f.fieldType;
    var u := f.name + " " + ty + rest;
    var body := DeclaredLine(f) + rest;
    assert body == "\n\t" + u;
    LooseSkipsNonWord(body);
    LooseSkipsNonWord(body[1..]);
    assert body[1..][1..] == u;
    DeclaredLooseToken(f, ty, rest, u);
    tok := LooseFieldAt(u).value;
    assert u[..|f.name|] == f.name && u[|f.name| + 1..|u| - |rest|] == ty && u[|u| - |rest|..] == rest;
    LooseTokensAfterToken(u, tok);
    DeclaredTypeText(f, ty);
    DeclaredDetail(ty);
  }

  /** Reading a body that declares `fields` one per line gives one item per
      field, in order. */
  lemma {:induction false} LooseItemsRoundTrip(fields: seq<GoField>)
    requires forall k :: 0 <= k < |fields| ==> WellFormedField(fields[k])
    ensures LooseItemsIn(DeclaredBody(fields)) == DeclaredItems(fields)
  {
    if fields == [] {
      LooseSkipsNonWord("\n");
      assert "\n"[1..] == [];
    } else {
      var rest := DeclaredBody(fields[1..]);
      assert DeclaredBody(fields) == DeclaredLine(fields[0]) + rest;
      DeclaredBodyFollows(fields[1..]);
      var tok := DeclaredLineLoose(fields[0], rest);
      LooseItemsRoundTrip(fields[1..]);
      ItemsOfCons(tok, LooseTokensIn(rest));
      DeclaredItemsCons(fields);
    }
  }

  /** Once the name matches at `j`, the pattern goes on right after it. */
  lemma NameThenStruct(t: string, name: string, j: nat)
    requires j <= |t| && NameMatches(t[j..], name)
    ensures j + |name| <= |t| && DeclarationBodyFrom(t, name, j) == StructBodyFrom(t, j + |name|)
  {
  }

  lemma StructFromRun(t: string, k: nat, m: nat)
    requires k < m <= |t| && SpanEnd(t, k, IsSpace) == m && "struct" <= t[m..]
    ensures StructBodyFrom(t, k) == BraceBodyFrom(t, m + 6)
  {
  }

  lemma BraceFromRuns(t: string, i: nat, p: nat, q: nat)
    requires i <= |t| && SpanEnd(t, i, IsSpace) == p && p < |t| && t[p] == '{'
    requires SpanEnd(t, p + 1, NotCloseBrace) == q && q < |t|
    ensures BraceBodyFrom(t, i) == Some(t[p + 1..q])
  {
  }

  /** The declaration pattern at the start of `t` when the name follows one blank. */
  lemma DeclarationAfterBlank(t: string, name: string, body: string)
    requires "type" <= t && 5 < |t| && t[4] == ' ' && !IsSpace(t[5])
    requires DeclarationBodyFrom(t, name, 5) == Some(body)
    ensures DeclarationAt(t, name) == Some(body)
  {
    SpanEndAt(t, 4, 5, IsSpace);
  }

  /** The characters of a text starting with `type NAME struct {BODY}`. */
  predicate DeclaredAtStart(name: string, body: string, file: string) {
    var n := |name|;
    15 + n + |body| <= |file|
    && file[..5] == "type " && file[5..5 + n] == name
    && file[5 + n] == ' ' && file[6 + n..12 + n] == "struct" && file[12 + n] == ' ' && file[13 + n] == '{'
    && file[14 + n..14 + n + |body|] == body && file[14 + n + |body|] == '}'
  }

  lemma DeclarationChars(name: string, body: string, file: string)
    requires "type " + name + " struct {" + body + "}" <= file
    ensures DeclaredAtStart(name, body, file)
  {
    var n := |name|;
    var decl := "type " + name + " struct {" + body + "}";
    assert file[..|decl|] == decl;
    assert decl[5..5 + n] == name;
    assert decl[6 + n..12 + n] == "struct";
    assert decl[14 + n..14 + n + |body|] == body;
  }

  /** The name in a declaration matches itself. */
  lemma DeclaredNameMatches(name: string, body: string, file: string)
    requires forall k :: 0 <= k < |name| ==> IsWordChar(name[k])
    requires DeclaredAtStart(name, body, file)
    ensures NameMatches(file[5..], name)
  {
    var n := |name|;
    forall k | 0 <= k < n ensures file[5..][k] == name[k] && name[k] != '.' {
      assert file[5..][k] == file[5..5 + n][k];
      assert IsWordChar(name[k]);
    }
  }

  /** The blanks around `struct` are single. */
  lemma DeclaredStructRuns(name: string, body: string, file: string)
    requires DeclaredAtStart(name, body, file)
    ensures var n := |name|;
            SpanEnd(file, 5 + n, IsSpace) == 6 + n && "struct" <= file[6 + n..]
            && SpanEnd(file, 12 + n, IsSpace) == 13 + n
  {
    var n := |name|;
    assert file[6 + n] == file[6 + n..12 + n][0];
    SpanEndAt(file, 5 + n, 6 + n, IsSpace);
    assert file[6 + n..][..6] == file[6 + n..12 + n];
    SpanEndAt(file, 12 + n, 13 + n, IsSpace);
  }

  /** The body runs to its closing brace. */
  lemma DeclaredBodyRun(name: string, body: string, file: string)
    requires '}' !in body
    requires DeclaredAtStart(name, body, file)
    ensures SpanEnd(file, 14 + |name|, NotCloseBrace) == 14 + |name| + |body|
  {
    var a := 14 + |name|;
    assert forall i :: a <= i < a + |body| ==> file[i] == file[a..a + |body|][i - a];
    SpanEndAt(file, a, a + |body|, NotCloseBrace);
  }

  /** After `type `, a word NAME followed by ` struct {BODY}` with a body
      without `}` matches the rest of the pattern. */
  lemma DeclarationBodyPrefix(name: string, body: string, file: string)
    requires forall k :: 0 <= k < |name| ==> IsWordChar(name[k])
    requires '}' !in body
    requires DeclaredAtStart(name, body, file)
    ensures 5 < |file| && DeclarationBodyFrom(file, name, 5) == Some(body)
  {
    var n := |name|;
    DeclaredNameMatches(name, body, file);
    DeclaredStructRuns(name, body, file);
    DeclaredBodyRun(name, body, file);
    NameThenStruct(file, name, 5);
    StructFromRun(file, 5 + n, 6 + n);
    BraceFromRuns(file, 12 + n, 13 + n, 14 + n + |body|);
  }

  /** A text that starts with `type NAME struct {BODY}` for a word NAME and a
      body without `}` is matched with that body, whatever follows. */
  lemma DeclarationPrefix(name: string, body: string, file: string)
    requires name != [] && forall k :: 0 <= k < |name| ==> IsWordChar(name[k])
    requires '}' !in body
    requires "type " + name + " struct {" + body + "}" <= file
    ensures DeclarationAt(file, name) == Some(body)
  {
    DeclarationChars(name, body, file);
    DeclarationBodyPrefix(name, body, file);
    assert file[5] == file[5..5 + |name|][0];
    DeclarationAfterBlank(file, name, body);
  }

  /** A file whose text starts with the declaration is matched with its body. */
  lemma DeclarationInFile(name: string, body: string, file: string)
    requires name != [] && forall k :: 0 <= k < |name| ==> IsWordChar(name[k])
    requires '}' !in body
    requires "type " + name + " struct {" + body + "}" <= file
    ensures DeclarationIn(file, name) == Some(body)
  {
    DeclarationPrefix(name, body, file);
    assert file[0..] == file;
  }

  /** A Go file that starts with the declaration of `name`, written one
      field per line, gives the fallback exactly those fields, in order. */
  lemma FallbackReadsDeclaration(name: string, fields: seq<GoField>, after: string, others: seq<string>)
    requires name != [] && forall k :: 0 <= k < |name| ==> IsWordChar(name[k])
    requires fields != [] && forall k :: 0 <= k < |fields| ==> WellFormedField(fields[k])
    ensures var file := "type " + name + " struct {" + DeclaredBody(fields) + "}" + after;
            var r := FallbackItems([file] + others, name);
            r.Some? && |r.value| == |fields|
            && forall k :: 0 <= k < |fields| ==> r.value[k].kind == FieldKind && FieldOf(r.value[k]) == fields[k]
  {
    var body := DeclaredBody(fields);
    var decl := "type " + name + " struct {" + body + "}";
    var file := decl + after;
    DeclaredBodyBraceFree(fields);
    assert decl <= file;
    DeclarationInFile(name, body, file);
    assert ([file] + others)[0] == file;
    LooseItemsRoundTrip(fields);
    forall k | 0 <= k < |fields| ensures FieldOf(DeclaredItem(fields[k])) == fields[k] {
      DeclaredItemField(fields[k]);
    }
  }
}
