/** The helpers that src/extension.ts and out/extension.js define identically:
    the field record, the default-value table, the `go list -m all` line
    parser and the struct-body field tokenizer. */
module GoFields {
  import opened Options
  import opened Text
  import opened Patterns

  /** A struct field as the command handles it. `fieldType` has had its first
      `*` removed; `isPointer` records whether the type text started with `*`. */
  datatype GoField = GoField(name: string, fieldType: string, isPointer: bool, isOptional: bool)

  /** A line of `go list -m all`; `version` is absent when the line has no blank. */
  datatype GoModule = GoModule(path: string, version: Option<string>)

  // ---------------------------------------------------------------------
  // getDefaultValue
  // ---------------------------------------------------------------------

  const IntegerTypes: set<string> := {"int", "int32", "int64", "uint", "uint32", "uint64"}
  const FloatTypes: set<string> := {"float32", "float64"}

  /** The text the type is classified by: first `*` removed, lower-cased. */
  function TypeKey(f: GoField): string {
    ToLower(RemoveFirst(f.fieldType, '*'))
  }

  /** The type names with a literal of their own in the table. */
  predicate IsBasicKey(key: string) {
    key == "string" || key in IntegerTypes || key in FloatTypes || key == "bool"
  }

  /** A slice, array or map type: the key holds both `[` and `]`. */
  predicate IsListKey(key: string) {
    '[' in key && ']' in key
  }

  /** `getDefaultValue`: the Go literal written for a missing field. */
  function DefaultValue(f: GoField): string {
    if f.isPointer then "nil"
    else
      var key := TypeKey(f);
      if key == "string" then "\"\""
      else if key in IntegerTypes then "0"
      else if key in FloatTypes then "0.0"
      else if key == "bool" then "false"
      else if IsListKey(key) then "nil"
      else f.fieldType + "{}"
  }

  /** A composite default keeps the type exactly as written, and it is the
      only default ending in `}`: the literal is an empty composite literal
      of the field's own type precisely when the type is neither a pointer,
      nor one of the basic names, nor a slice, array or map. */
  lemma DefaultIsComposite(f: GoField)
    ensures var v := DefaultValue(f);
            (|v| >= 2 && v[|v| - 1] == '}') <==>
            (!f.isPointer && !IsBasicKey(TypeKey(f)) && !IsListKey(TypeKey(f)))
    ensures !f.isPointer && !IsBasicKey(TypeKey(f)) && !IsListKey(TypeKey(f)) ==>
            DefaultValue(f) == f.fieldType + "{}"
  {
    var v := DefaultValue(f);
    if !f.isPointer && !IsBasicKey(TypeKey(f)) && !IsListKey(TypeKey(f)) {
      assert v[|v| - 1] == '}';
    }
  }

  /** `nil` is written exactly for pointer fields, whatever their type, and
      for non-basic types whose key holds both brackets. */
  lemma DefaultIsNil(f: GoField)
    ensures DefaultValue(f) == "nil" <==>
            f.isPointer || (!IsBasicKey(TypeKey(f)) && IsListKey(TypeKey(f)))
  {
    var v := DefaultValue(f);
    if !f.isPointer && !IsBasicKey(TypeKey(f)) && !IsListKey(TypeKey(f)) {
      assert v[|v| - 1] == '}';
      assert "nil"[2] == 'l';
    }
  }

  /** `0` is written exactly for the six integer names (after removing one
      `*` and lower-casing); other widths such as `int8` are not among them. */
  lemma DefaultIsZero(f: GoField)
    ensures DefaultValue(f) == "0" <==> !f.isPointer && TypeKey(f) in IntegerTypes
  {
    var v := DefaultValue(f);
    if !f.isPointer && !IsBasicKey(TypeKey(f)) && !IsListKey(TypeKey(f)) {
      assert |v| >= 2;
    }
  }

  /** Basic names are compared without regard to ASCII case, so two fields
      whose types differ only in case get the same basic literal. */
  lemma DefaultIgnoresCase(f: GoField, g: GoField)
    requires !f.isPointer && !g.isPointer
    requires ToLower(RemoveFirst(f.fieldType, '*')) == ToLower(RemoveFirst(g.fieldType, '*'))
    requires IsBasicKey(TypeKey(f)) || IsListKey(TypeKey(f))
    ensures DefaultValue(f) == DefaultValue(g)
  {
  }

  /** `Int64` is classified as an integer: the comparison ignores case. */
  lemma DefaultOfUpperCaseInteger()
    ensures DefaultValue(GoField("Age", "Int64", false, false)) == "0"
  {
    var f := GoField("Age", "Int64", false, false);
    assert RemoveFirst("Int64", '*') == "Int64";
    assert ToLower("Int64") == "int64";
    assert TypeKey(f) == "int64";
  }

  /** `int8` is not one of the six integer names and gets a composite literal. */
  lemma DefaultOfNarrowInteger()
    ensures DefaultValue(GoField("Small", "int8", false, false)) == "int8{}"
  {
    var f := GoField("Small", "int8", false, false);
    assert RemoveFirst("int8", '*') == "int8";
    assert ToLower("int8") == "int8";
    assert TypeKey(f) == "int8";
    assert "int8"[0] != "uint"[0];
    assert "int8" !in IntegerTypes;
    assert "int8" !in FloatTypes;
    assert !IsListKey("int8");
  }

  /** `string` gets `""`, the two float names `0.0` and `bool` gets `false`,
      each exactly when the field is not a pointer and its key is that name. */
  lemma DefaultIsBasicLiteral(f: GoField)
    ensures DefaultValue(f) == "\"\"" <==> !f.isPointer && TypeKey(f) == "string"
    ensures DefaultValue(f) == "0.0" <==> !f.isPointer && TypeKey(f) in FloatTypes
    ensures DefaultValue(f) == "false" <==> !f.isPointer && TypeKey(f) == "bool"
  {
    var v := DefaultValue(f);
    if !f.isPointer && !IsBasicKey(TypeKey(f)) && !IsListKey(TypeKey(f)) {
      assert v[|v| - 1] == '}';
    }
  }

  // ---------------------------------------------------------------------
  // parseGoModules
  // ---------------------------------------------------------------------

  /** `filter(line => line.trim())`: the lines holding something other than
      white space, in order. */
  function NonBlank(lines: seq<string>): seq<string>
  {
    if lines == [] then []
    else (if Trim(lines[0]) != [] then [lines[0]] else []) + NonBlank(lines[1..])
  }

  /** `idx` lists, in increasing order, the positions of the non-blank lines,
      every one of them, and the kept lines are the lines at those positions. */
  predicate NonBlankAt(lines: seq<string>, r: seq<string>, idx: seq<nat>) {
    |idx| == |r| && Increasing(idx)
    && (forall k :: 0 <= k < |idx| ==> idx[k] < |lines| && r[k] == lines[idx[k]] && Trim(r[k]) != [])
    && (forall i :: 0 <= i < |lines| && Trim(lines[i]) != [] ==> i in idx)
  }

  /** The filter keeps every non-blank line, in order, and nothing else. */
  lemma {:induction false} NonBlankSelect(lines: seq<string>) returns (idx: seq<nat>)
    ensures NonBlankAt(lines, NonBlank(lines), idx)
    decreases |lines|
  {
    if lines == [] {
      idx := [];
    } else {
      var prev := NonBlankSelect(lines[1..]);
      idx := NonBlankCons(lines, prev);
    }
  }

  /** The positions in the tail, moved one place on. */
  function Shifted(prev: seq<nat>): (r: seq<nat>)
    ensures |r| == |prev| && forall k :: 0 <= k < |r| ==> r[k] == prev[k] + 1
  {
    seq(|prev|, k requires 0 <= k < |prev| => prev[k] + 1)
  }

  /** One step of the selection: the first line, if kept, goes in front of
      the tail's positions. */
  lemma NonBlankCons(lines: seq<string>, prev: seq<nat>) returns (idx: seq<nat>)
    requires lines != [] && NonBlankAt(lines[1..], NonBlank(lines[1..]), prev)
    ensures NonBlankAt(lines, NonBlank(lines), idx)
  {
    var keep := Trim(lines[0]) != [];
    var head: seq<nat> := if keep then [0] else [];
    var first := if keep then [lines[0]] else [];
    idx := head + Shifted(prev);
    assert NonBlank(lines) == first + NonBlank(lines[1..]);
    NonBlankConsPicks(lines, prev, head, first, NonBlank(lines[1..]));
    NonBlankConsComplete(lines, prev, head);
    ShiftedIncreasing(head, prev);
  }

  lemma NonBlankConsPicks(lines: seq<string>, prev: seq<nat>, head: seq<nat>, first: seq<string>, rest: seq<string>)
    requires lines != [] && |head| == |first| && (head == [] || (head == [0] && first == [lines[0]]))
    requires |prev| == |rest|
    requires forall k :: 0 <= k < |prev| ==> prev[k] < |lines[1..]| && rest[k] == lines[1..][prev[k]]
    ensures var idx, r := head + Shifted(prev), first + rest;
            |idx| == |r| && forall k :: 0 <= k < |idx| ==> idx[k] < |lines| && r[k] == lines[idx[k]]
  {
    var idx, r := head + Shifted(prev), first + rest;
    forall k | 0 <= k < |idx| ensures idx[k] < |lines| && r[k] == lines[idx[k]] {
      if k >= |head| {
        assert idx[k] == prev[k - |head|] + 1;
        assert r[k] == rest[k - |head|];
      }
    }
  }

  lemma NonBlankConsComplete(lines: seq<string>, prev: seq<nat>, head: seq<nat>)
    requires lines != [] && head == (if Trim(lines[0]) != [] then [0] else [])
    requires forall i :: 0 <= i < |lines[1..]| && Trim(lines[1..][i]) != [] ==> i in prev
    ensures forall i :: 0 <= i < |lines| && Trim(lines[i]) != [] ==> i in head + Shifted(prev)
  {
    var tail, idx := lines[1..], head + Shifted(prev);
    forall i | 0 <= i < |lines| && Trim(lines[i]) != [] ensures i in idx {
      if i == 0 {
        assert idx[0] == 0;
      } else {
        assert tail[i - 1] == lines[i];
        assert i - 1 in prev;
        var k :| 0 <= k < |prev| && prev[k] == i - 1;
        var sh := Shifted(prev);
        assert sh[k] == i;
        assert idx[|head| + k] == sh[k];
      }
    }
  }

  lemma ShiftedIncreasing(head: seq<nat>, prev: seq<nat>)
    requires head == [] || head == [0]
    requires Increasing(prev)
    ensures Increasing(head + Shifted(prev))
  {
    var idx := head + Shifted(prev);
    forall k, l | 0 <= k < l < |idx| ensures idx[k] < idx[l] {
      assert idx[l] == prev[l - |head|] + 1;
      if k >= |head| {
        assert idx[k] == prev[k - |head|] + 1;
      }
    }
  }

  /** `m` holds the first and, when the line has a blank, the second
      blank-separated token of `line`. */
  predicate ReadsTokens(line: string, m: GoModule) {
    ' ' !in m.path && m.path <= line && (|m.path| == |line| || line[|m.path|] == ' ')
    && (m.version.Some? <==> ' ' in line)
    && (m.version.Some? ==>
          var rest := line[|m.path| + 1..];
          ' ' !in m.version.value && m.version.value <= rest
          && (|m.version.value| == |rest| || rest[|m.version.value|] == ' '))
  }

  /** A line has one reading: the tokens pin the record down. */
  lemma ReadsTokensUnique(line: string, m: GoModule, n: GoModule)
    requires ReadsTokens(line, m) && ReadsTokens(line, n)
    ensures m == n
  {
    TokenUnique(line, m.path, n.path);
    if m.version.Some? {
      TokenUnique(line[|m.path| + 1..], m.version.value, n.version.value);
    }
  }

  /** Two blank-free prefixes that each stop at a blank or the end are equal. */
  lemma TokenUnique(s: string, x: string, y: string)
    requires ' ' !in x && x <= s && (|x| == |s| || s[|x|] == ' ')
    requires ' ' !in y && y <= s && (|y| == |s| || s[|y|] == ' ')
    ensures x == y
  {
  }

  /** `const [path, version] = line.split(' ')`. */
  function ModuleOfLine(line: string): (m: GoModule)
    ensures ReadsTokens(line, m)
  {
    var parts := Split(line, ' ');
    SplitFirst(line, ' ');
    if |parts| > 1 then
      var rest := line[|parts[0]| + 1..];
      SplitFirst(rest, ' ');
      assert parts[1] == Split(rest, ' ')[0];
      GoModule(parts[0], Some(parts[1]))
    else GoModule(parts[0], None)
  }

  /** `parseGoModules`: one record per non-blank line of the output, in order,
      holding that line's first and second blank-separated tokens. */
  function ParseGoModules(info: string): (r: seq<GoModule>)
    ensures var lines := NonBlank(Split(info, '\n'));
            |r| == |lines| && forall k :: 0 <= k < |r| ==> ReadsTokens(lines[k], r[k])
  {
    var lines := NonBlank(Split(info, '\n'));
    seq(|lines|, k requires 0 <= k < |lines| => ModuleOfLine(lines[k]))
  }

  /** A module list without white space inside its paths and versions. */
  predicate PlainModule(m: GoModule) {
    m.path != [] && (forall k :: 0 <= k < |m.path| ==> !IsSpace(m.path[k]))
    && (m.version.Some? ==> forall k :: 0 <= k < |m.version.value| ==> !IsSpace(m.version.value[k]))
  }

  /** The line `go list -m all` prints for a module. */
  function ModuleLine(m: GoModule): string {
    match m.version
    case Some(v) => m.path + " " + v
    case None => m.path
  }

  lemma {:induction false} ModuleLineRoundTrip(m: GoModule)
    requires PlainModule(m)
    ensures ModuleOfLine(ModuleLine(m)) == m
    ensures Trim(ModuleLine(m)) != [] && '\n' !in ModuleLine(m)
  {
    assert ' ' !in m.path by {
      forall k | 0 <= k < |m.path| ensures m.path[k] != ' ' { assert !IsSpace(m.path[k]); }
    }
    assert ModuleLine(m)[0] == m.path[0];
    assert !IsSpace(ModuleLine(m)[0]);
    match m.version {
      case Some(v) =>
        assert ' ' !in v by {
          forall k | 0 <= k < |v| ensures v[k] != ' ' { assert !IsSpace(v[k]); }
        }
        assert Join([m.path, v], ' ') == ModuleLine(m);
        SplitJoin([m.path, v], ' ');
        assert '\n' !in ModuleLine(m) by {
          forall k | 0 <= k < |ModuleLine(m)| ensures ModuleLine(m)[k] != '\n' {
            if k < |m.path| { assert ModuleLine(m)[k] == m.path[k]; }
            else if k > |m.path| { assert ModuleLine(m)[k] == v[k - |m.path| - 1]; }
          }
        }
      case None =>
        assert Join([m.path], ' ') == m.path;
        SplitJoin([m.path], ' ');
        assert '\n' !in m.path by {
          forall k | 0 <= k < |m.path| ensures m.path[k] != '\n' { assert !IsSpace(m.path[k]); }
        }
    }
  }

  lemma {:induction false} NonBlankKeepsAll(lines: seq<string>)
    requires forall k :: 0 <= k < |lines| ==> Trim(lines[k]) != []
    ensures NonBlank(lines) == lines
  {
    if lines != [] {
      NonBlankKeepsAll(lines[1..]);
    }
  }

  /** Parsing the lines printed for a module list gives the list back. */
  lemma ParseGoModulesRoundTrip(ms: seq<GoModule>)
    requires |ms| >= 1
    requires forall k :: 0 <= k < |ms| ==> PlainModule(ms[k])
    ensures ParseGoModules(Join(seq(|ms|, k requires 0 <= k < |ms| => ModuleLine(ms[k])), '\n')) == ms
  {
    var lines := seq(|ms|, k requires 0 <= k < |ms| => ModuleLine(ms[k]));
    forall k | 0 <= k < |ms| ensures ModuleOfLine(lines[k]) == ms[k] && Trim(lines[k]) != [] && '\n' !in lines[k] {
      ModuleLineRoundTrip(ms[k]);
    }
    SplitJoin(lines, '\n');
    NonBlankKeepsAll(lines);
  }

  // ---------------------------------------------------------------------
  // parseStructFields
  // ---------------------------------------------------------------------

  /** The field built from one match of the struct-body pattern. */
  function FieldOfToken(tok: FieldToken): GoField {
    GoField(tok.name, RemoveFirst(tok.typeToken, '*'), StartsWith(tok.typeToken, "*"), false)
  }

  /** The fields built from a list of matches, in order. */
  function FieldsOfTokens(toks: seq<FieldToken>): seq<GoField> {
    if toks == [] then [] else [FieldOfToken(toks[0])] + FieldsOfTokens(toks[1..])
  }

  lemma FieldsOfTokensCons(tok: FieldToken, toks: seq<FieldToken>)
    ensures FieldsOfTokens([tok] + toks) == [FieldOfToken(tok)] + FieldsOfTokens(toks)
  {
    assert ([tok] + toks)[1..] == toks;
  }

  /** One more match adds its field at the end. */
  lemma {:induction false} FieldsOfTokensSnoc(toks: seq<FieldToken>, tok: FieldToken)
    ensures FieldsOfTokens(toks + [tok]) == FieldsOfTokens(toks) + [FieldOfToken(tok)]
    decreases |toks|
  {
    if toks != [] {
      assert (toks + [tok])[1..] == toks[1..] + [tok];
      FieldsOfTokensSnoc(toks[1..], tok);
    }
  }

  /** The fields `fieldRegex.exec` finds in `body`, in order: after a match
      the search resumes where it ended, otherwise one character later. */
  function StructFieldsIn(body: string): seq<GoField> {
    FieldsOfTokens(TokensIn(body, StructFieldAt))
  }

  /** What `parseStructFields` returns: nothing when the definition has no
      brace pair free of inner braces, else the fields of the first one. */
  function StructFieldsOf(definition: string): seq<GoField> {
    match FirstMatch(BraceBodyAt, definition)
    case None => []
    case Some((_, body)) => StructFieldsIn(body)
  }

  /** The shape every parsed field has: non-optional, named by a word, and
      with a non-empty type holding no `*`. */
  predicate WellFormedField(f: GoField) {
    !f.isOptional && f.name != [] && f.fieldType != [] && '*' !in f.fieldType
    && (forall k :: 0 <= k < |f.name| ==> IsWordChar(f.name[k]))
    && (forall k :: 0 <= k < |f.fieldType| ==> IsTypeChar(f.fieldType[k]))
  }

  /** The field of one token strips the optional leading `*` into `isPointer`. */
  lemma TokenField(t: string)
    requires StructFieldAt(t).Some?
    ensures WellFormedField(FieldOfToken(StructFieldAt(t).value))
    ensures FieldOfToken(StructFieldAt(t).value).isPointer <==> StructFieldAt(t).value.typeToken[0] == '*'
  {
    ShapedTokenField(StructFieldAt(t).value);
  }

  /** A token shaped like a field pattern match gives a well-formed field. */
  lemma ShapedTokenField(tok: FieldToken)
    requires tok.name != [] && forall k :: 0 <= k < |tok.name| ==> IsWordChar(tok.name[k])
    requires var ty := tok.typeToken;
             ty != [] && ty != "*"
             && forall k :: 0 <= k < |ty| ==> IsTypeChar(ty[k]) || (k == 0 && ty[k] == '*')
    ensures WellFormedField(FieldOfToken(tok))
    ensures FieldOfToken(tok).isPointer <==> tok.typeToken[0] == '*'
  {
    var ty := tok.typeToken;
    var f := FieldOfToken(tok);
    if ty[0] == '*' {
      assert '*' !in ty[1..] by {
        forall k | 0 <= k < |ty| - 1 ensures ty[1..][k] != '*' { assert IsTypeChar(ty[k + 1]); }
      }
      assert f.fieldType == ty[1..];
      assert forall k :: 0 <= k < |f.fieldType| ==> IsTypeChar(f.fieldType[k]) by {
        forall k | 0 <= k < |f.fieldType| ensures IsTypeChar(f.fieldType[k]) { assert f.fieldType[k] == ty[k + 1]; }
      }
    } else {
      assert '*' !in ty by {
        forall k | 0 <= k < |ty| ensures ty[k] != '*' { assert IsTypeChar(ty[k]); }
      }
    }
  }

  /** Every field the body parser produces is well formed. */
  lemma StructFieldsShape(body: string)
    ensures forall k :: 0 <= k < |StructFieldsIn(body)| ==> WellFormedField(StructFieldsIn(body)[k])
  {
    forall t | StructFieldAt(t).Some? ensures ParsedToken(StructFieldAt(t).value) {
      TokenField(t);
    }
    TokensInHold(body, StructFieldAt, ParsedToken);
    FieldsOfTokensShape(TokensIn(body, StructFieldAt));
  }

  /** A match whose field is well formed. */
  predicate ParsedToken(tok: FieldToken) {
    WellFormedField(FieldOfToken(tok))
  }

  lemma {:induction false} FieldsOfTokensShape(toks: seq<FieldToken>)
    requires forall k :: 0 <= k < |toks| ==> ParsedToken(toks[k])
    ensures forall k :: 0 <= k < |FieldsOfTokens(toks)| ==> WellFormedField(FieldsOfTokens(toks)[k])
  {
    if toks != [] {
      FieldsOfTokensShape(toks[1..]);
      assert ParsedToken(toks[0]);
    }
  }

  /** The line a struct declaration gives a field: a tab, the name, a blank
      and the type, with `*` in front for a pointer. */
  function DeclaredLine(f: GoField): string {
    "\n\t" + f.name + " " + (if f.isPointer then "*" else "") + f.fieldType
  }

  /** The text between the braces of a declaration listing `fields`, one per line. */
  function DeclaredBody(fields: seq<GoField>): string {
    if fields == [] then "\n" else DeclaredLine(fields[0]) + DeclaredBody(fields[1..])
  }

  /** The text following a declared line: the closing newline, or another line. */
  predicate FollowsLine(rest: string) {
    rest == "\n" || (|rest| >= 3 && rest[0] == '\n' && rest[1] == '\t' && IsWordChar(rest[2]))
  }

  lemma DeclaredBodyFollows(fields: seq<GoField>)
    requires fields != [] ==> WellFormedField(fields[0])
    ensures FollowsLine(DeclaredBody(fields))
  {
    if fields != [] {
      var b := DeclaredBody(fields);
      assert b[2] == fields[0].name[0];
    }
  }

  /** Where the name, blank and `*` of a declared line end. */
  lemma DeclaredNameRuns(f: GoField, star: string, rest: string, u: string)
    requires WellFormedField(f) && star == (if f.isPointer then "*" else "")
    requires u == f.name + " " + star + f.fieldType + rest
    ensures SpanEnd(u, 0, IsWordChar) == |f.name|
    ensures SpanEnd(u, |f.name|, IsSpace) == |f.name| + 1
    ensures (|f.name| + 1 < |u| && u[|f.name| + 1] == '*') == f.isPointer
    ensures u[..|f.name|] == f.name
  {
    var n1 := |f.name|;
    assert forall k :: 0 <= k < n1 ==> u[k] == f.name[k];
    assert u[n1] == ' ';
    SpanEndAt(u, 0, n1, IsWordChar);
    assert u[n1 + 1] == if f.isPointer then '*' else f.fieldType[0];
    assert IsTypeChar(f.fieldType[0]);
    SpanEndAt(u, n1, n1 + 1, IsSpace);
  }

  /** Where the type of a declared line ends. */
  lemma DeclaredTypeRuns(ty: string, u: string, a: nat)
    requires a + |ty| < |u| && u[a..a + |ty|] == ty && u[a + |ty|] == '\n'
    requires forall k :: 0 <= k < |ty| ==> IsTypeChar(ty[k])
    ensures SpanEnd(u, a, IsTypeChar) == a + |ty|
  {
    assert forall k :: a <= k < a + |ty| ==> u[k] == ty[k - a];
    SpanEndAt(u, a, a + |ty|, IsTypeChar);
  }

  /** The white space after a declared line runs to the end of the body or
      to the next field name. */
  lemma FollowerRuns(rest: string, u: string, e: nat)
    requires FollowsLine(rest) && e + |rest| == |u| && u[e..] == rest
    ensures SpanEnd(u, e, IsSpace) == (if rest == "\n" then |u| else e + 2)
    ensures rest != "\n" ==> IsWordChar(u[e + 2])
  {
    assert u[e] == rest[0];
    if rest == "\n" {
      SpanEndAt(u, e, |u|, IsSpace);
    } else {
      assert u[e + 1] == rest[1] && u[e + 2] == rest[2];
      SpanEndAt(u, e, e + 2, IsSpace);
    }
  }

  /** The field pattern at the start of `u` once it is known where each of
      its greedy runs stops. */
  predicate RunsAt(u: string, n1: nat, a: nat, e: nat, b: nat) {
    0 < n1 && n1 + 1 <= a <= n1 + 2 && a < e < |u| && e <= b <= |u|
    && SpanEnd(u, 0, IsWordChar) == n1 && SpanEnd(u, n1, IsSpace) == n1 + 1
    && a == (if u[n1 + 1] == '*' then n1 + 2 else n1 + 1)
    && SpanEnd(u, a, IsTypeChar) == e && SpanEnd(u, e, IsSpace) == b
    && (b == |u| || IsWordChar(u[b]))
  }

  lemma TokenFromRuns(u: string, n1: nat, a: nat, e: nat, b: nat)
    requires RunsAt(u, n1, a, e, b)
    ensures StructFieldAt(u) == Some(FieldToken(u[..n1], u[n1 + 1..e], e))
  {
  }

  /** One declared field, followed by the next line or the end of the body,
      is one token of the field pattern: the pattern's optional tag and
      comment find nothing to consume. */
  lemma DeclaredFieldToken(f: GoField, star: string, rest: string, u: string)
    requires WellFormedField(f) && FollowsLine(rest) && star == (if f.isPointer then "*" else "")
    requires u == f.name + " " + star + f.fieldType + rest
    ensures StructFieldAt(u) == Some(FieldToken(u[..|f.name|], u[|f.name| + 1..|u| - |rest|], |u| - |rest|))
  {
    var a, b := DeclaredRuns(f, star, rest, u);
    TokenFromRuns(u, |f.name|, a, |u| - |rest|, b);
  }

  /** Where each run of the field pattern ends on a declared line. */
  lemma DeclaredRuns(f: GoField, star: string, rest: string, u: string) returns (a: nat, b: nat)
    requires WellFormedField(f) && FollowsLine(rest) && star == (if f.isPointer then "*" else "")
    requires u == f.name + " " + star + f.fieldType + rest
    ensures RunsAt(u, |f.name|, a, |u| - |rest|, b)
  {
    a := |f.name| + 1 + |star|;
    var e := a + |f.fieldType|;
    DeclaredNameRuns(f, star, rest, u);
    assert u[a..e] == f.fieldType;
    assert u[e..] == rest;
    DeclaredTypeRuns(f.fieldType, u, a);
    FollowerRuns(rest, u, e);
    if f.isPointer {
      assert |star| == 1 && u[|f.name| + 1] == '*';
    } else {
      assert |star| == 0 && u[|f.name| + 1] != '*';
    }
    b := SpanEnd(u, e, IsSpace);
  }

  /** The pieces of a declared line, found back by position. */
  lemma DeclaredSlices(f: GoField, star: string, rest: string, u: string)
    requires u == f.name + " " + star + f.fieldType + rest
    ensures u[..|f.name|] == f.name && u[|f.name| + 1..|u| - |rest|] == star + f.fieldType
    ensures u[|u| - |rest|..] == rest
  {
  }

  lemma DeclaredFieldParsed(f: GoField, n: nat)
    requires WellFormedField(f)
    ensures var star := if f.isPointer then "*" else "";
            FieldOfToken(FieldToken(f.name, star + f.fieldType, n)) == f
  {
    var star := if f.isPointer then "*" else "";
    var ty := star + f.fieldType;
    assert IsTypeChar(f.fieldType[0]);
    if f.isPointer {
      assert IndexOf(ty, '*') == 0;
    }
  }

  /** No field starts at a character that is not a word character. */
  lemma SkipsNonWord(t: string)
    requires t != [] && !IsWordChar(t[0])
    ensures StructFieldsIn(t) == StructFieldsIn(t[1..])
  {
    assert SpanEnd(t, 0, IsWordChar) == 0;
    TokensInMiss(t, StructFieldAt);
  }

  /** The fields of a text starting with a token are that token's field
      followed by the fields after it. */
  lemma FieldsAfterToken(u: string, tok: FieldToken)
    requires StructFieldAt(u) == Some(tok)
    ensures StructFieldsIn(u) == [FieldOfToken(tok)] + StructFieldsIn(u[tok.length..])
  {
    TokensInMatch(u, StructFieldAt, tok);
    FieldsOfTokensCons(tok, TokensIn(u[tok.length..], StructFieldAt));
  }

  /** A declared line contributes exactly its own field. */
  lemma DeclaredLineParsed(f: GoField, rest: string)
    requires WellFormedField(f) && FollowsLine(rest)
    ensures StructFieldsIn(DeclaredLine(f) + rest) == [f] + StructFieldsIn(rest)
  {
    var star := if f.isPointer then "*" else "";
    var u := f.name + " " + star + f.fieldType + rest;
    var body := DeclaredLine(f) + rest;
    assert body == "\n\t" + u;
    SkipsNonWord(body);
    SkipsNonWord(body[1..]);
    assert body[1..][1..] == u;
    DeclaredFieldToken(f, star, rest, u);
    DeclaredSlices(f, star, rest, u);
    var tok := StructFieldAt(u).value;
    FieldsAfterToken(u, tok);
    DeclaredFieldParsed(f, |u| - |rest|);
  }

  /** Parsing a body that declares `fields` one per line gives the fields back. */
  lemma {:induction false} StructFieldsRoundTrip(fields: seq<GoField>)
    requires forall k :: 0 <= k < |fields| ==> WellFormedField(fields[k])
    ensures StructFieldsIn(DeclaredBody(fields)) == fields
  {
    if fields == [] {
      SkipsNonWord("\n");
      assert "\n"[1..] == [];
    } else {
      DeclaredBodyFollows(fields[1..]);
      DeclaredLineParsed(fields[0], DeclaredBody(fields[1..]));
      StructFieldsRoundTrip(fields[1..]);
    }
  }

  /** A brace pair around brace-free text is matched with that text as body. */
  lemma BracedBody(body: string)
    requires '{' !in body && '}' !in body
    ensures BraceBodyAt("{" + body + "}") == Some(body)
  {
    var t := "{" + body + "}";
    assert forall k :: 1 <= k < |body| + 1 ==> t[k] == body[k - 1];
    SpanEndAt(t, 1, |body| + 1, NotBrace);
    assert t[1..|body| + 1] == body;
  }

  /** The first brace pair of a definition is the one at its first `{`. */
  lemma FirstBraceBody(prefix: string, t: string, body: string)
    requires '{' !in prefix && BraceBodyAt(t) == Some(body)
    ensures FirstMatch(BraceBodyAt, prefix + t) == Some((|prefix|, body))
  {
    var d := prefix + t;
    assert d[|prefix|..] == t;
    var m := FirstMatch(BraceBodyAt, d);
    assert m.Some?;
  }

  /** A definition whose first brace opens a brace-free body is parsed from that body. */
  lemma FieldsOfFirstBody(prefix: string, body: string, d: string)
    requires '{' !in prefix && '{' !in body && '}' !in body
    requires d == prefix + "{" + body + "}"
    ensures StructFieldsOf(d) == StructFieldsIn(body)
  {
    var t := "{" + body + "}";
    assert d == prefix + t;
    BracedBody(body);
    FirstBraceBody(prefix, t, body);
    FieldsOfMatchedBody(d, |prefix|, body);
  }

  /** `parseStructFields` on a struct declaration `definition`, made of text
      without braces followed by a body declaring `fields`, returns the fields
      in order. */
  lemma ParseDeclaredStruct(prefix: string, fields: seq<GoField>, definition: string)
    requires '{' !in prefix
    requires forall k :: 0 <= k < |fields| ==> WellFormedField(fields[k])
    requires definition == prefix + "{" + DeclaredBody(fields) + "}"
    ensures StructFieldsOf(definition) == fields
  {
    var body := DeclaredBody(fields);
    StructFieldsRoundTrip(fields);
    DeclaredBodyBraceFree(fields);
    FieldsOfFirstBody(prefix, body, definition);
  }

  /** The fields of a definition are those of its first brace body. */
  lemma FieldsOfMatchedBody(d: string, n: nat, body: string)
    requires FirstMatch(BraceBodyAt, d) == Some((n, body))
    ensures StructFieldsOf(d) == StructFieldsIn(body)
  {
  }

  lemma {:induction false} DeclaredBodyBraceFree(fields: seq<GoField>)
    requires forall k :: 0 <= k < |fields| ==> WellFormedField(fields[k])
    ensures '{' !in DeclaredBody(fields) && '}' !in DeclaredBody(fields)
  {
    if fields != [] {
      DeclaredBodyBraceFree(fields[1..]);
      var f := fields[0];
      var line := DeclaredLine(f);
      forall k | 0 <= k < |line| ensures line[k] != '{' && line[k] != '}' {
        var star := if f.isPointer then "*" else "";
        if 2 <= k < 2 + |f.name| {
          assert line[k] == f.name[k - 2];
        } else if 3 + |f.name| + |star| <= k {
          assert line[k] == f.fieldType[k - 3 - |f.name| - |star|];
        }
      }
    }
  }

  /** The `while ((match = fieldRegex.exec(fieldsText)) !== null)` loop,
      with the regex given as `fieldRegex`: one field pushed per match. */
  method ExecFields(fieldsText: string, fieldRegex: string -> Option<FieldToken>) returns (fields: seq<GoField>)
    ensures fields == FieldsOfTokens(TokensIn(fieldsText, fieldRegex))
  {
    fields := [];
    var pos := 0;
    ghost var done: seq<FieldToken> := [];
    ScanStart(fieldsText, fieldRegex);
    while pos < |fieldsText|
      invariant ScannedTo(fieldsText, pos, done, fieldRegex)
      invariant fields == FieldsOfTokens(done)
      decreases |fieldsText| - pos
    {
      var m := fieldRegex(fieldsText[pos..]);
      if m.Some? && 0 < m.value.length <= |fieldsText| - pos {
        var tok := m.value;
        MatchStep(fieldsText, pos, done, fieldRegex, tok);
        FieldsOfTokensSnoc(done, tok);
        fields := fields + [FieldOfToken(tok)];
        done := done + [tok];
        pos := pos + tok.length;
      } else {
        MissStep(fieldsText, pos, done, fieldRegex);
        pos := pos + 1;
      }
    }
    assert fieldsText[pos..] == [];
    assert done + [] == done;
  }

  /** `parseStructFields` on a definition. */
  method ParseStructFields(definition: string) returns (fields: seq<GoField>)
    ensures fields == StructFieldsOf(definition)
  {
    var found := FirstMatch(BraceBodyAt, definition);
    if found.None? {
      return [];
    }
    var fieldsText := found.value.1;
    fields := ExecFields(fieldsText, StructFieldAt);
  }
}
