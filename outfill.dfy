/** The code out/extension.js generates (`generateFillCode`): it finds the
    text that opens the literal (up to the `{` of the cursor line, or of the
    nearest line above holding one, or a short variable declaration found in
    the whole document at most five lines above the cursor), indents the
    field lines four spaces deeper than that text, and closes with the
    opening text's indentation. */
module OutFill {
  import opened Options
  import opened Text
  import opened Patterns
  import opened GoFields
  import opened Render
  import opened Document
  import opened OutScan

  // ---------------------------------------------------------------------
  // The short declaration near the cursor
  // ---------------------------------------------------------------------

  /** `document.positionAt(i).line`: the line breaks before offset `i`. */
  function LineAt(text: string, i: nat): nat
    requires i <= |text|
  {
    Count(text[..i], '\n')
  }

  /** A declaration that starts on the cursor line or at most five lines above it. */
  predicate NearCursor(line: nat, cur: nat) {
    line <= cur && cur - line <= 5
  }

  /** A `g`-flag `exec` loop from offset `pos` with the pattern `at`, which
      gives the length of a match at the start of a text: the text of the
      first match whose offset satisfies `near`. After a match the search
      resumes where the match ended. */
  function FirstExec(text: string, at: string -> Option<nat>, near: nat -> bool, pos: nat): Option<string>
    requires pos <= |text|
    decreases |text| - pos
  {
    match at(text[pos..])
    case Some(len) =>
      if 0 < len <= |text| - pos then
        if near(pos) then Some(text[pos..pos + len])
        else FirstExec(text, at, near, pos + len)
      else None
    case None =>
      if pos < |text| then FirstExec(text, at, near, pos + 1) else None
  }

  /** The offsets of the text that lie on a line near the cursor. */
  function NearLines(text: string, cur: nat): nat -> bool {
    (p: nat) => p <= |text| && NearCursor(LineAt(text, p), cur)
  }

  /** The loop of `generateFillCode`: the first match that starts near the cursor. */
  function NearMatchFrom(text: string, cur: nat, at: string -> Option<nat>, pos: nat): Option<string>
    requires pos <= |text|
  {
    FirstExec(text, at, NearLines(text, cur), pos)
  }

  /** The search with `(\w+)\s*:=\s*(\w+)\s*{`: what it finds starts with a
      word character and ends with its `{`. */
  function NearDeclaration(text: string, cur: nat): (r: Option<string>)
    ensures r.Some? ==> r.value != [] && IsWordChar(r.value[0]) && r.value[|r.value| - 1] == '{'
  {
    ShortDeclarationOpens();
    NearMatchShape(text, cur, ShortDeclarationAt);
    NearMatchFrom(text, cur, ShortDeclarationAt, 0)
  }

  /** The whole-document `while ((match = structRegex.exec(fullText)) !== null)`
      loop, with the regex given as `structRegex`. */
  method FindNearMatch(text: string, cur: nat, structRegex: string -> Option<nat>) returns (braceText: Option<string>)
    ensures braceText == NearMatchFrom(text, cur, structRegex, 0)
  {
    var pos := 0;
    while pos < |text|
      invariant pos <= |text|
      invariant NearMatchFrom(text, cur, structRegex, pos) == NearMatchFrom(text, cur, structRegex, 0)
      decreases |text| - pos
    {
      var m := structRegex(text[pos..]);
      if m.Some? {
        if !(0 < m.value <= |text| - pos) {
          return None;
        }
        if NearCursor(LineAt(text, pos), cur) {
          return Some(text[pos..pos + m.value]);
        }
        pos := pos + m.value;
      } else {
        pos := pos + 1;
      }
    }
    return None;
  }

  /** The offsets, from `pos` on, where a `g`-flag `exec` loop with the
      pattern `at` finds its matches when it is never stopped early. */
  function ExecStarts(text: string, at: string -> Option<nat>, pos: nat): (r: seq<nat>)
    requires pos <= |text|
    ensures forall k :: 0 <= k < |r| ==> pos <= r[k] < |text|
    decreases |text| - pos
  {
    match at(text[pos..])
    case Some(len) =>
      if 0 < len <= |text| - pos then [pos] + ExecStarts(text, at, pos + len) else []
    case None =>
      if pos < |text| then ExecStarts(text, at, pos + 1) else []
  }

  /** Each offset the loop visits holds a match of the pattern, and the
      offsets increase. */
  lemma {:induction false} ExecStartsMatch(text: string, at: string -> Option<nat>, pos: nat)
    requires pos <= |text|
    ensures var ss := ExecStarts(text, at, pos);
            Increasing(ss) && forall k :: 0 <= k < |ss| ==> at(text[ss[k]..]).Some?
    decreases |text| - pos
  {
    match at(text[pos..]) {
      case Some(len) =>
        if 0 < len <= |text| - pos {
          ExecStartsMatch(text, at, pos + len);
        }
      case None =>
        if pos < |text| {
          ExecStartsMatch(text, at, pos + 1);
        }
    }
  }

  /** No offset in `ss` satisfies `near`. */
  predicate NoneNear(ss: seq<nat>, near: nat -> bool) {
    forall j :: 0 <= j < |ss| ==> !near(ss[j])
  }

  lemma NoneNearCons(x: nat, rest: seq<nat>, near: nat -> bool)
    ensures NoneNear([x] + rest, near) <==> !near(x) && NoneNear(rest, near)
  {
    var ss := [x] + rest;
    assert ss[0] == x;
    assert forall j :: 0 < j < |ss| ==> ss[j] == rest[j - 1];
    assert forall j :: 0 <= j < |rest| ==> rest[j] == ss[j + 1];
  }

  /** The search finds nothing exactly when no offset the `exec` loop visits
      satisfies `near`. */
  lemma {:induction false} FirstExecNone(text: string, at: string -> Option<nat>, near: nat -> bool, pos: nat)
    requires pos <= |text|
    ensures FirstExec(text, at, near, pos).None? <==> NoneNear(ExecStarts(text, at, pos), near)
    decreases |text| - pos
  {
    match at(text[pos..]) {
      case Some(len) =>
        if 0 < len <= |text| - pos {
          var rest := ExecStarts(text, at, pos + len);
          assert ExecStarts(text, at, pos) == [pos] + rest;
          NoneNearCons(pos, rest, near);
          if !near(pos) {
            assert FirstExec(text, at, near, pos) == FirstExec(text, at, near, pos + len);
            FirstExecNone(text, at, near, pos + len);
          }
        }
      case None =>
        if pos < |text| {
          assert ExecStarts(text, at, pos) == ExecStarts(text, at, pos + 1);
          assert FirstExec(text, at, near, pos) == FirstExec(text, at, near, pos + 1);
          FirstExecNone(text, at, near, pos + 1);
        }
    }
  }

  /** What the search returns is the match at the first offset the `exec`
      loop visits that satisfies `near`. */
  lemma {:induction false} FirstExecFinds(text: string, at: string -> Option<nat>, near: nat -> bool, pos: nat) returns (k: nat)
    requires pos <= |text|
    ensures var r, ss := FirstExec(text, at, near, pos), ExecStarts(text, at, pos);
            r.Some? ==> k < |ss| && near(ss[k]) && (forall j :: 0 <= j < k ==> !near(ss[j]))
                        && r.value <= text[ss[k]..] && at(text[ss[k]..]) == Some(|r.value|)
    decreases |text| - pos
  {
    k := 0;
    match at(text[pos..]) {
      case Some(len) =>
        if 0 < len <= |text| - pos {
          if !near(pos) {
            var k' := FirstExecFinds(text, at, near, pos + len);
            k := k' + 1;
          }
        }
      case None =>
        if pos < |text| {
          k := FirstExecFinds(text, at, near, pos + 1);
        }
    }
  }

  /** The search near the cursor returns the match at the first visited
      offset on the cursor line or at most five lines above it, and nothing
      exactly when no visited offset lies on such a line. */
  lemma NearMatchFinds(text: string, cur: nat, at: string -> Option<nat>) returns (k: nat)
    ensures var r, ss := NearMatchFrom(text, cur, at, 0), ExecStarts(text, at, 0);
            (r.None? <==> forall j :: 0 <= j < |ss| ==> !NearCursor(LineAt(text, ss[j]), cur))
            && (r.Some? ==> k < |ss| && NearCursor(LineAt(text, ss[k]), cur)
                            && (forall j :: 0 <= j < k ==> !NearCursor(LineAt(text, ss[j]), cur))
                            && r.value <= text[ss[k]..] && at(text[ss[k]..]) == Some(|r.value|))
  {
    var near := NearLines(text, cur);
    FirstExecNone(text, at, near, 0);
    k := FirstExecFinds(text, at, near, 0);
  }

  /** A match of a pattern whose every match starts with a word character
      and ends with `{` does so too where the search finds it. */
  lemma NearMatchShape(text: string, cur: nat, at: string -> Option<nat>)
    requires forall t :: at(t).Some? ==> 0 < at(t).value <= |t| && IsWordChar(t[0]) && t[at(t).value - 1] == '{'
    ensures var r := NearMatchFrom(text, cur, at, 0);
            r.Some? ==> r.value != [] && IsWordChar(r.value[0]) && r.value[|r.value| - 1] == '{'
  {
    var k := FirstExecFinds(text, at, NearLines(text, cur), 0);
    var r := NearMatchFrom(text, cur, at, 0);
    if r.Some? {
      var t := text[ExecStarts(text, at, 0)[k]..];
      assert at(t) == Some(|r.value|);
      assert r.value == t[..|r.value|];
    }
  }

  /** Every match of the short-declaration pattern starts with a word
      character and ends with `{`. */
  lemma ShortDeclarationOpens()
    ensures forall t :: ShortDeclarationAt(t).Some? ==>
              0 < ShortDeclarationAt(t).value <= |t| && IsWordChar(t[0]) && t[ShortDeclarationAt(t).value - 1] == '{'
  {
  }

  // ---------------------------------------------------------------------
  // The generated code
  // ---------------------------------------------------------------------

  /** `braceText`: the cursor line up to its first `{`; else the nearest
      line above holding `{`, up to that brace; else the short declaration
      found near the cursor; else nothing. */
  function BraceText(lines: seq<string>, cur: nat): string
    requires cur < |lines|
  {
    var b := IndexOf(lines[cur], '{');
    if b != -1 then lines[cur][..b + 1]
    else match BraceAbove(lines, cur - 1)
      case Some(l) => lines[l][..IndexOf(lines[l], '{') + 1]
      case None =>
        match NearDeclaration(FullText(lines), cur)
        case Some(m) => m
        case None => ""
  }

  /** `isNestedStruct`: the cursor line or the line above holds `Field: Type{`. */
  predicate InNestedLiteral(lines: seq<string>, cur: nat)
    requires cur < |lines|
  {
    HasPlainNestedLiteral(lines[cur]) || (cur > 0 && HasPlainNestedLiteral(lines[cur - 1]))
  }

  /** `s.slice(0, -4)`. */
  function DropLastFour(s: string): string {
    if |s| >= 4 then s[..|s| - 4] else ""
  }

  /** What `generateFillCode` returns, step by step as it computes it. */
  function OutFillCode(lines: seq<string>, cur: nat, fields: seq<GoField>): string
    requires cur < |lines|
  {
    var braceText := BraceText(lines, cur);
    if braceText == [] then
      var currentIndent := LeadingSpace(lines[cur]);
      if fields == [] then ""
      else "\n" + Join(FieldLines(fields, currentIndent), '\n') + "\n" + currentIndent
    else
      var baseIndent := LeadingSpace(braceText);
      var innerIndent := baseIndent + "    ";
      if fields == [] then ""
      else
        var endIndent := if InNestedLiteral(lines, cur) then DropLastFour(innerIndent) else baseIndent;
        "\n" + Join(FieldLines(fields, baseIndent), '\n') + "\n" + endIndent
  }

  /** `generateFillCode`, with its upward loop and the whole-document search. */
  method GenerateFillCode(lines: seq<string>, cur: nat, fields: seq<GoField>) returns (code: string)
    requires cur < |lines|
    ensures code == OutFillCode(lines, cur, fields)
  {
    var textAtCursorLine := lines[cur];
    var braceText := "";
    var bracePosition := IndexOf(textAtCursorLine, '{');
    if bracePosition != -1 {
      braceText := textAtCursorLine[..bracePosition + 1];
    } else {
      var currentLine := cur - 1;
      var foundBrace := false;
      while currentLine >= 0 && !foundBrace
        invariant -1 <= currentLine < cur
        invariant !foundBrace
        invariant BraceAbove(lines, currentLine) == BraceAbove(lines, cur - 1)
        decreases currentLine + 1
      {
        bracePosition := IndexOf(lines[currentLine], '{');
        if bracePosition != -1 {
          braceText := lines[currentLine][..bracePosition + 1];
          break;
        }
        currentLine := currentLine - 1;
      }
      if braceText == [] {
        var found := FindNearMatch(FullText(lines), cur, ShortDeclarationAt);
        if found.Some? {
          braceText := found.value;
        }
      }
    }
    assert braceText == BraceText(lines, cur) by {
      if bracePosition == -1 && BraceAbove(lines, cur - 1).None? {
      }
    }
    if braceText == [] {
      var currentIndent := LeadingSpace(textAtCursorLine);
      var fieldLines := FieldLines(fields, currentIndent);
      if |fieldLines| == 0 {
        return "";
      }
      return "\n" + Join(fieldLines, '\n') + "\n" + currentIndent;
    }
    var baseIndent := LeadingSpace(braceText);
    var innerIndent := baseIndent + "    ";
    var isNestedStruct := HasPlainNestedLiteral(textAtCursorLine) || (cur > 0 && HasPlainNestedLiteral(lines[cur - 1]));
    var fieldLines := FieldLines(fields, baseIndent);
    if |fieldLines| == 0 {
      return "";
    }
    var endIndent := if isNestedStruct then DropLastFour(innerIndent) else baseIndent;
    code := "\n" + Join(fieldLines, '\n') + "\n" + endIndent;
  }

  /** The indentation of the literal as the code sees it: that of the
      nearest line at or above the cursor holding `{`; with none, nothing
      when a short declaration starts at most five lines above, else that of
      the cursor line. */
  function FillIndent(lines: seq<string>, cur: nat): string
    requires cur < |lines|
  {
    match BraceAbove(lines, cur)
    case Some(l) => LeadingSpace(lines[l])
    case None =>
      if NearDeclaration(FullText(lines), cur).Some? then "" else LeadingSpace(lines[cur])
  }

  /** The text up to a line's first `{` has the line's indentation. */
  lemma BracePrefixIndent(s: string)
    requires '{' in s
    ensures LeadingSpace(s[..IndexOf(s, '{') + 1]) == LeadingSpace(s)
  {
    var b := IndexOf(s, '{');
    LeadingSpaceOfPrefix(s, b + 1, b);
  }

  /** Text starting with a word character has no indentation. */
  lemma WordStartIndent(s: string)
    requires s != [] && IsWordChar(s[0])
    ensures LeadingSpace(s) == ""
  {
    assert !IsSpace(s[0]);
  }

  /** Dropping the four added spaces gives the base indentation back. */
  lemma DropAddedIndent(base: string)
    ensures DropLastFour(base + "    ") == base
  {
  }

  /** The opening text found has the literal's indentation; with none,
      that indentation is the cursor line's. */
  lemma BraceTextIndent(lines: seq<string>, cur: nat)
    requires cur < |lines|
    ensures BraceText(lines, cur) != [] ==> LeadingSpace(BraceText(lines, cur)) == FillIndent(lines, cur)
    ensures BraceText(lines, cur) == [] ==> FillIndent(lines, cur) == LeadingSpace(lines[cur])
  {
    var text := lines[cur];
    if '{' in text {
      BracePrefixIndent(text);
    } else {
      assert BraceAbove(lines, cur) == BraceAbove(lines, cur - 1);
      match BraceAbove(lines, cur - 1) {
        case Some(l) =>
          BracePrefixIndent(lines[l]);
        case None =>
          var found := NearDeclaration(FullText(lines), cur);
          if found.Some? {
            WordStartIndent(found.value);
          }
      }
    }
  }

  /** The generated code is nothing for no fields, and otherwise the field
      block under the literal's indentation: whether or not the literal is
      nested, the closing indentation is the base one, as the four spaces
      added for the fields are taken off again. */
  lemma OutFillCodeIsBlock(lines: seq<string>, cur: nat, fields: seq<GoField>)
    requires cur < |lines|
    ensures OutFillCode(lines, cur, fields) == if fields == [] then "" else FieldsBlock(fields, FillIndent(lines, cur))
  {
    BraceTextIndent(lines, cur);
    DropAddedIndent(LeadingSpace(BraceText(lines, cur)));
  }

  /** The code's lines: an empty line, one line per field, and a last line
      holding the indentation before the text that follows. */
  lemma OutFillCodeLines(lines: seq<string>, cur: nat, fields: seq<GoField>)
    requires cur < |lines| && fields != []
    requires forall k :: 0 <= k < |lines| ==> '\n' !in lines[k]
    requires forall k :: 0 <= k < |fields| ==> SingleLineField(fields[k])
    ensures var indent := FillIndent(lines, cur);
            Split(OutFillCode(lines, cur, fields), '\n') == [""] + FieldLines(fields, indent) + [indent]
  {
    OutFillCodeIsBlock(lines, cur, fields);
    var indent := FillIndent(lines, cur);
    assert '\n' !in indent by {
      match BraceAbove(lines, cur) {
        case Some(l) =>
          assert forall k :: 0 <= k < |indent| ==> indent[k] == lines[l][k];
        case None =>
          assert forall k :: 0 <= k < |indent| ==> indent[k] == lines[cur][k];
      }
    }
    FieldsBlockLines(fields, indent);
  }
}
