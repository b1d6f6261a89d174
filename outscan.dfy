/** The line-walking searches of the fill command in out/extension.js: the
    initializer nearest the cursor, the upward search for a nested
    `Field: Type{` line, the start and end lines of a nested literal, the text
    of that literal, and the insertion position. Each loop is a method proved
    equal to a function that follows the same steps; lemmas then say what
    those functions find. */
module OutScan {
  import opened Options
  import opened Text
  import opened Patterns
  import opened Document

  // ---------------------------------------------------------------------
  // Nearest initializer within ten lines of the cursor
  // ---------------------------------------------------------------------

  /** A struct initializer found on a line: the line and the type name. */
  datatype LineMatch = LineMatch(line: nat, name: string)

  function Dist(i: int, j: int): nat {
    if i < j then j - i else i - j
  }

  /** `Math.max(0, position.line - 10)`. */
  function WindowStart(cur: nat): nat {
    if cur >= 10 then cur - 10 else 0
  }

  /** `Math.min(document.lineCount - 1, position.line + 10)`. */
  function WindowEnd(lines: seq<string>, cur: nat): nat
    requires cur < |lines|
  {
    if cur + 10 < |lines| - 1 then cur + 10 else |lines| - 1
  }

  /** The loop from line `i` on, with `best` the match kept so far: the name
      `find` gives for a line replaces it only when that line is strictly
      nearer to the cursor. */
  function NearestFrom(lines: seq<string>, cur: nat, find: string -> Option<string>, i: nat, best: Option<LineMatch>): Option<LineMatch>
    requires cur < |lines| && i <= WindowEnd(lines, cur) + 1
    decreases WindowEnd(lines, cur) + 1 - i
  {
    if i > WindowEnd(lines, cur) then best
    else
      var next := match find(lines[i])
        case Some(name) =>
          if best.None? || Dist(i, cur) < Dist(best.value.line, cur) then Some(LineMatch(i, name)) else best
        case None => best;
      NearestFrom(lines, cur, find, i + 1, next)
  }

  function NearestInitializer(lines: seq<string>, cur: nat): Option<LineMatch>
    requires cur < |lines|
  {
    NearestFrom(lines, cur, Initializer, WindowStart(cur), None)
  }

  /** The search for the nearest struct initializer that the command runs
      inline when the cursor line holds no nested literal. */
  method FindNearestInitializer(lines: seq<string>, cur: nat) returns (found: Option<LineMatch>)
    requires cur < |lines|
    ensures found == NearestInitializer(lines, cur)
  {
    found := FindNearest(lines, cur, Initializer);
  }

  /** The `for` loop over the window around the cursor, with the line
      pattern given as `find`. */
  method FindNearest(lines: seq<string>, cur: nat, find: string -> Option<string>) returns (found: Option<LineMatch>)
    requires cur < |lines|
    ensures found == NearestFrom(lines, cur, find, WindowStart(cur), None)
  {
    var startLine := WindowStart(cur);
    var endLine := WindowEnd(lines, cur);
    found := None;
    var i := startLine;
    while i <= endLine
      invariant startLine <= i <= endLine + 1
      invariant NearestFrom(lines, cur, find, i, found) == NearestFrom(lines, cur, find, startLine, None)
      decreases endLine + 1 - i
    {
      var lineMatch := find(lines[i]);
      if lineMatch.Some? {
        if found.None? || Dist(i, cur) < Dist(found.value.line, cur) {
          found := Some(LineMatch(i, lineMatch.value));
        }
      }
      i := i + 1;
    }
  }

  /** `m` is a match among lines `lo` to `hi - 1` no other of which is
      nearer to the cursor, nor as near and above it. */
  predicate NearestAmong(lines: seq<string>, cur: nat, find: string -> Option<string>, lo: nat, hi: nat, m: LineMatch)
    requires hi <= |lines|
  {
    lo <= m.line < hi && find(lines[m.line]) == Some(m.name)
    && forall i :: lo <= i < hi && find(lines[i]).Some? ==>
         Dist(m.line, cur) < Dist(i, cur) || (Dist(m.line, cur) == Dist(i, cur) && m.line <= i)
  }

  /** What the loop keeps after the lines `lo` to `hi - 1`. */
  predicate KeepsNearest(lines: seq<string>, cur: nat, find: string -> Option<string>, lo: nat, hi: nat, best: Option<LineMatch>)
    requires hi <= |lines|
  {
    (best.None? <==> forall i :: lo <= i < hi ==> find(lines[i]).None?)
    && (best.Some? ==> NearestAmong(lines, cur, find, lo, hi, best.value))
  }

  lemma {:induction false} NearestFromKeeps(lines: seq<string>, cur: nat, find: string -> Option<string>, i: nat, best: Option<LineMatch>)
    requires cur < |lines| && WindowStart(cur) <= i <= WindowEnd(lines, cur) + 1
    requires KeepsNearest(lines, cur, find, WindowStart(cur), i, best)
    ensures KeepsNearest(lines, cur, find, WindowStart(cur), WindowEnd(lines, cur) + 1, NearestFrom(lines, cur, find, i, best))
    decreases WindowEnd(lines, cur) + 1 - i
  {
    if i <= WindowEnd(lines, cur) {
      var lo := WindowStart(cur);
      var next := match find(lines[i])
        case Some(name) =>
          if best.None? || Dist(i, cur) < Dist(best.value.line, cur) then Some(LineMatch(i, name)) else best
        case None => best;
      assert KeepsNearest(lines, cur, find, lo, i + 1, next) by {
        if find(lines[i]).Some? && best.Some? && !(Dist(i, cur) < Dist(best.value.line, cur)) {
          assert best.value.line < i;
        }
      }
      NearestFromKeeps(lines, cur, find, i + 1, next);
    }
  }

  /** The initializer chosen is, among the lines at most ten away from the
      cursor, one nearest to it, and the upper one of two equally near; there
      is none exactly when no line of the window holds an initializer. */
  lemma NearestInitializerIsNearest(lines: seq<string>, cur: nat)
    requires cur < |lines|
    ensures var r := NearestInitializer(lines, cur);
            var lo, hi := WindowStart(cur), WindowEnd(lines, cur) + 1;
            (r.None? <==> forall i :: lo <= i < hi ==> Initializer(lines[i]).None?)
            && (r.Some? ==> NearestAmong(lines, cur, Initializer, lo, hi, r.value))
  {
    NearestFromKeeps(lines, cur, Initializer, WindowStart(cur), None);
  }

  /** The window is the ten lines above and below the cursor, within the document. */
  lemma WindowBounds(lines: seq<string>, cur: nat, i: nat)
    requires cur < |lines|
    ensures WindowStart(cur) <= i <= WindowEnd(lines, cur) <==> i < |lines| && Dist(i, cur) <= 10
  {
  }

  // ---------------------------------------------------------------------
  // Upward search for a nested `Field: Type{` line
  // ---------------------------------------------------------------------

  /** A line that ends the upward search: it holds `:=` or `func `. */
  predicate StopsSearch(s: string) {
    Includes(s, ":=") || Includes(s, "func ")
  }

  /** A walk up from line `k`: the first line for which `hit` gives a name
      yields it, and a line where `stop` holds, tested after `hit`, ends the
      walk with nothing. */
  function ScanUp(lines: seq<string>, k: int, hit: string -> Option<string>, stop: string -> bool): Option<string>
    requires -1 <= k < |lines|
    decreases k + 1
  {
    if k < 0 then None
    else match hit(lines[k])
      case Some(name) => Some(name)
      case None => if stop(lines[k]) then None else ScanUp(lines, k - 1, hit, stop)
  }

  /** The search for a `Field: Type{` line from line `k` upward. */
  function NestedAbove(lines: seq<string>, k: int): Option<string>
    requires -1 <= k < |lines|
  {
    ScanUp(lines, k, NestedLiteral, StopsSearch)
  }

  /** The `while (searchLine >= 0)` loop, started on the line above the cursor. */
  method FindNestedAbove(lines: seq<string>, cur: nat) returns (name: Option<string>)
    requires cur < |lines|
    ensures name == NestedAbove(lines, cur - 1)
  {
    var searchLine := cur - 1;
    while searchLine >= 0
      invariant -1 <= searchLine < cur
      invariant NestedAbove(lines, searchLine) == NestedAbove(lines, cur - 1)
      decreases searchLine + 1
    {
      var nestedMatch := NestedLiteral(lines[searchLine]);
      if nestedMatch.Some? {
        return nestedMatch;
      }
      if StopsSearch(lines[searchLine]) {
        return None;
      }
      searchLine := searchLine - 1;
    }
    return None;
  }

  /** The walk returns what `hit` gives for the nearest line at or above `k`
      that it accepts, provided no line strictly between is a stop line;
      `at` is that line, or the stop line, or -1. A stop line that `hit`
      accepts still yields its name. */
  lemma {:induction false} ScanUpFinds(lines: seq<string>, k: int, hit: string -> Option<string>, stop: string -> bool) returns (at: int)
    requires -1 <= k < |lines|
    ensures -1 <= at <= k
    ensures forall j :: at < j <= k ==> hit(lines[j]).None? && !stop(lines[j])
    ensures ScanUp(lines, k, hit, stop).Some? ==> at >= 0 && ScanUp(lines, k, hit, stop) == hit(lines[at])
    ensures ScanUp(lines, k, hit, stop).None? ==> at == -1 || (hit(lines[at]).None? && stop(lines[at]))
    decreases k + 1
  {
    if k < 0 {
      at := -1;
    } else if hit(lines[k]).Some? || stop(lines[k]) {
      at := k;
    } else {
      at := ScanUpFinds(lines, k - 1, hit, stop);
    }
  }

  /** The name found above comes from a `Field: Type{` line in the range searched. */
  lemma NestedAboveLine(lines: seq<string>, k: int) returns (at: nat)
    requires -1 <= k < |lines| && NestedAbove(lines, k).Some?
    ensures at <= k && NestedLiteral(lines[at]) == NestedAbove(lines, k)
  {
    var found := ScanUpFinds(lines, k, NestedLiteral, StopsSearch);
    at := found;
  }

  // ---------------------------------------------------------------------
  // Start and end of the nested literal
  // ---------------------------------------------------------------------

  /** A line that opens a literal of `name`: it holds `name{` or `name {`. */
  predicate OpensLiteral(s: string, name: string) {
    Includes(s, name + "{") || Includes(s, name + " {")
  }

  /** The search for the literal's first line, from line `k` upward; the
      cursor line itself never stops the search. */
  function StartFrom(lines: seq<string>, name: string, cur: nat, k: int): (r: int)
    requires cur < |lines| && -1 <= k <= cur
    ensures -1 <= r <= k
    ensures r != -1 ==> OpensLiteral(lines[r], name)
    decreases k + 1
  {
    if k < 0 then -1
    else if OpensLiteral(lines[k], name) then k
    else if k != cur && StopsSearch(lines[k]) then -1
    else StartFrom(lines, name, cur, k - 1)
  }

  /** The search ends at the nearest line at or above `k` that opens the
      literal or, other than the cursor line, stops the search; `at` is that
      line, or -1 when the walk ran past the first line. The result is `at`
      exactly when that line opens the literal, and -1 otherwise. */
  lemma {:induction false} StartFromIsNearest(lines: seq<string>, name: string, cur: nat, k: int) returns (at: int)
    requires cur < |lines| && -1 <= k <= cur
    ensures -1 <= at <= k
    ensures forall j :: at < j <= k ==> !OpensLiteral(lines[j], name) && (j == cur || !StopsSearch(lines[j]))
    ensures at >= 0 ==> OpensLiteral(lines[at], name) || (at != cur && StopsSearch(lines[at]))
    ensures StartFrom(lines, name, cur, k) == (if at >= 0 && OpensLiteral(lines[at], name) then at else -1)
    decreases k + 1
  {
    if k < 0 {
      at := -1;
    } else if OpensLiteral(lines[k], name) || (k != cur && StopsSearch(lines[k])) {
      at := k;
    } else {
      at := StartFromIsNearest(lines, name, cur, k - 1);
    }
  }

  /** The `while` loop that looks for `structStartLine`. */
  method FindStructStart(lines: seq<string>, name: string, cur: nat) returns (start: int)
    requires cur < |lines|
    ensures start == StartFrom(lines, name, cur, cur)
  {
    var searchLine := cur as int;
    while searchLine >= 0
      invariant -1 <= searchLine <= cur
      invariant StartFrom(lines, name, cur, searchLine) == StartFrom(lines, name, cur, cur)
      decreases searchLine + 1
    {
      var lineText := lines[searchLine];
      if Includes(lineText, name + "{") || Includes(lineText, name + " {") {
        return searchLine;
      }
      if searchLine != cur && (Includes(lineText, ":=") || Includes(lineText, "func ")) {
        return -1;
      }
      searchLine := searchLine - 1;
    }
    return -1;
  }

  /** Brace balance of the characters from the start of line `cur` up to,
      not including, character `c` of line `l`. */
  function Depth(lines: seq<string>, cur: nat, l: nat, c: nat): int
    requires cur <= l < |lines| && c <= |lines[l]|
    decreases l - cur, c
  {
    if c > 0 then
      Depth(lines, cur, l, c - 1) + (if lines[l][c - 1] == '{' then 1 else if lines[l][c - 1] == '}' then -1 else 0)
    else if l > cur then Depth(lines, cur, l - 1, |lines[l - 1]|)
    else 0
  }

  /** Whether a `{` occurs among those characters. */
  predicate Opened(lines: seq<string>, cur: nat, l: nat, c: nat)
    requires cur <= l < |lines| && c <= |lines[l]|
    decreases l - cur, c
  {
    if c > 0 then Opened(lines, cur, l, c - 1) || lines[l][c - 1] == '{'
    else if l > cur then Opened(lines, cur, l - 1, |lines[l - 1]|)
    else false
  }

  /** Character `c` of line `l` is a `}` that brings the balance back to zero
      after a `{` has been seen. */
  predicate ClosesAt(lines: seq<string>, cur: nat, l: nat, c: nat) {
    cur <= l < |lines| && c < |lines[l]| && lines[l][c] == '}'
    && Opened(lines, cur, l, c) && Depth(lines, cur, l, c) == 1
  }

  /** The character scan from character `c` of line `l`, with the running
      count and the `foundStart` flag; `start` is `structStartLine`. */
  function EndFrom(lines: seq<string>, start: int, l: nat, c: nat, count: int, found: bool): int
    requires l <= |lines| && (l < |lines| ==> c <= |lines[l]|)
    decreases |lines| - l, if l < |lines| then |lines[l]| - c else 0
  {
    if l == |lines| then -1
    else if c == |lines[l]| then EndFrom(lines, start, l + 1, 0, count, found)
    else if lines[l][c] == '{' then EndFrom(lines, start, l, c + 1, count + 1, found || l >= start)
    else if lines[l][c] == '}' then
      if found && count - 1 == 0 then l else EndFrom(lines, start, l, c + 1, count - 1, found)
    else EndFrom(lines, start, l, c + 1, count, found)
  }

  /** `structEndLine`. */
  function StructEnd(lines: seq<string>, start: int, cur: nat): int
    requires cur < |lines|
  {
    EndFrom(lines, start, cur, 0, 0, false)
  }

  /** The nested loops that count braces from the cursor line down. */
  method FindStructEnd(lines: seq<string>, start: int, cur: nat) returns (endLine: int)
    requires cur < |lines|
    ensures endLine == StructEnd(lines, start, cur)
  {
    var searchLine := cur;
    var braceCount := 0;
    var foundStart := false;
    endLine := -1;
    while searchLine < |lines|
      invariant cur <= searchLine <= |lines|
      invariant EndFrom(lines, start, searchLine, 0, braceCount, foundStart) == StructEnd(lines, start, cur)
      decreases |lines| - searchLine
    {
      var lineText := lines[searchLine];
      var c := 0;
      while c < |lineText|
        invariant 0 <= c <= |lineText|
        invariant EndFrom(lines, start, searchLine, c, braceCount, foundStart) == StructEnd(lines, start, cur)
        decreases |lineText| - c
      {
        var ch := lineText[c];
        if ch == '{' {
          if !foundStart && searchLine >= start {
            foundStart := true;
          }
          braceCount := braceCount + 1;
        } else if ch == '}' {
          braceCount := braceCount - 1;
          if foundStart && braceCount == 0 {
            endLine := searchLine;
            return;
          }
        }
        c := c + 1;
      }
      searchLine := searchLine + 1;
    }
  }

  /** No closing position before character `c` of line `l`. */
  predicate NoCloseBefore(lines: seq<string>, cur: nat, l: nat, c: nat) {
    (forall l', c' :: cur <= l' < l && l' < |lines| && 0 <= c' < |lines[l']| ==> !ClosesAt(lines, cur, l', c'))
    && (l < |lines| ==> forall c' :: 0 <= c' < c && c' < |lines[l]| ==> !ClosesAt(lines, cur, l, c'))
  }

  lemma DepthNextLine(lines: seq<string>, cur: nat, l: nat)
    requires cur <= l && l + 1 < |lines|
    ensures Depth(lines, cur, l + 1, 0) == Depth(lines, cur, l, |lines[l]|)
    ensures Opened(lines, cur, l + 1, 0) == Opened(lines, cur, l, |lines[l]|)
  {
  }

  lemma {:induction false} EndFromFinds(lines: seq<string>, start: int, cur: nat, l: nat, c: nat, count: int, found: bool)
    requires start <= cur <= l <= |lines| && (l < |lines| ==> c <= |lines[l]|)
    requires l == |lines| || (count == Depth(lines, cur, l, c) && found == Opened(lines, cur, l, c))
    requires NoCloseBefore(lines, cur, l, c)
    ensures var r := EndFrom(lines, start, l, c, count, found);
            (r == -1 ==> forall l', c' :: cur <= l' < |lines| && 0 <= c' < |lines[l']| ==> !ClosesAt(lines, cur, l', c'))
            && (r != -1 ==> l <= r < |lines| && (exists c' :: 0 <= c' < |lines[r]| && ClosesAt(lines, cur, r, c'))
                            && forall l', c' :: cur <= l' < r && 0 <= c' < |lines[l']| ==> !ClosesAt(lines, cur, l', c'))
    decreases |lines| - l, if l < |lines| then |lines[l]| - c else 0
  {
    if l == |lines| {
    } else if c == |lines[l]| {
      if l + 1 < |lines| {
        DepthNextLine(lines, cur, l);
      }
      EndFromFinds(lines, start, cur, l + 1, 0, count, found);
    } else if lines[l][c] == '{' {
      assert !ClosesAt(lines, cur, l, c);
      EndFromFinds(lines, start, cur, l, c + 1, count + 1, found || l >= start);
    } else if lines[l][c] == '}' {
      if found && count - 1 == 0 {
        assert ClosesAt(lines, cur, l, c);
      } else {
        assert !ClosesAt(lines, cur, l, c);
        EndFromFinds(lines, start, cur, l, c + 1, count - 1, found);
      }
    } else {
      assert !ClosesAt(lines, cur, l, c);
      EndFromFinds(lines, start, cur, l, c + 1, count, found);
    }
  }

  /** The end line is the first line at or below the cursor holding a `}`
      that brings the brace count, started at zero on the cursor line, back
      to zero after a `{` has been seen; it is -1 when there is none. The
      start line only gates `foundStart`, and as it is never below the
      cursor it does not change the result. */
  lemma StructEndIsFirstClose(lines: seq<string>, start: int, cur: nat)
    requires cur < |lines| && start <= cur
    ensures var r := StructEnd(lines, start, cur);
            (r == -1 <==> forall l, c :: cur <= l < |lines| && 0 <= c < |lines[l]| ==> !ClosesAt(lines, cur, l, c))
            && (r != -1 ==> cur <= r < |lines| && (exists c :: 0 <= c < |lines[r]| && ClosesAt(lines, cur, r, c))
                            && forall l, c :: cur <= l < r && 0 <= c < |lines[l]| ==> !ClosesAt(lines, cur, l, c))
  {
    EndFromFinds(lines, start, cur, cur, 0, 0, false);
  }

  /** The lines of the literal, each followed by a newline. */
  function LinesText(ls: seq<string>): string {
    if ls == [] then "" else ls[0] + "\n" + LinesText(ls[1..])
  }

  /** `existingText` for a nested literal: its lines from start to end when
      both were found, else nothing. */
  function NestedText(lines: seq<string>, name: string, cur: nat): string
    requires cur < |lines|
  {
    var start := StartFrom(lines, name, cur, cur);
    var end := StructEnd(lines, start, cur);
    if start != -1 && end != -1 then
      assert start <= cur <= end < |lines| by { StructEndIsFirstClose(lines, start, cur); }
      LinesText(lines[start..end + 1])
    else ""
  }

  /** The text searched for keys already set: the nested literal's lines, or
      the whole document for a top-level literal. */
  function ExistingText(lines: seq<string>, name: string, cur: nat, nested: bool): string
    requires cur < |lines|
  {
    if nested then NestedText(lines, name, cur) else FullText(lines)
  }

  /** The computation of `existingText`, with the loop that collects the lines. */
  method ComputeExistingText(lines: seq<string>, name: string, cur: nat, nested: bool) returns (text: string)
    requires cur < |lines|
    ensures text == ExistingText(lines, name, cur, nested)
  {
    if !nested {
      return FullText(lines);
    }
    var start := FindStructStart(lines, name, cur);
    var end := FindStructEnd(lines, start, cur);
    text := "";
    if start != -1 && end != -1 {
      StructEndIsFirstClose(lines, start, cur);
      var i := start;
      while i <= end
        invariant start <= i <= end + 1
        invariant text + LinesText(lines[i..end + 1]) == LinesText(lines[start..end + 1])
        decreases end + 1 - i
      {
        assert lines[i..end + 1][1..] == lines[i + 1..end + 1];
        text := text + lines[i] + "\n";
        i := i + 1;
      }
    }
  }

  /** Every line of the literal appears in the collected text. */
  lemma {:induction false} LinesTextHolds(ls: seq<string>, k: nat) returns (p: nat)
    requires k < |ls|
    ensures p + |ls[k]| < |LinesText(ls)| && LinesText(ls)[p..p + |ls[k]|] == ls[k]
    ensures LinesText(ls)[p + |ls[k]|] == '\n'
  {
    if k == 0 {
      p := 0;
      assert LinesText(ls) == ls[0] + ("\n" + LinesText(ls[1..]));
    } else {
      var q := LinesTextHolds(ls[1..], k - 1);
      p := |ls[0]| + 1 + q;
      var rest := LinesText(ls[1..]);
      assert LinesText(ls) == (ls[0] + "\n") + rest;
      assert LinesText(ls)[p..p + |ls[k]|] == rest[q..q + |ls[k]|];
    }
  }

  // ---------------------------------------------------------------------
  // Where the code is inserted
  // ---------------------------------------------------------------------

  /** The nearest line at or above `k` holding `{`. */
  function BraceAbove(lines: seq<string>, k: int): (r: Option<nat>)
    requires -1 <= k < |lines|
    ensures r.Some? ==> r.value <= k && '{' in lines[r.value]
                        && forall l :: r.value < l <= k ==> '{' !in lines[l]
    ensures r.None? ==> forall l :: 0 <= l <= k ==> '{' !in lines[l]
    decreases k + 1
  {
    if k < 0 then None
    else if '{' in lines[k] then Some(k)
    else BraceAbove(lines, k - 1)
  }

  /** Just after the first `{` of a line. */
  function AfterBrace(lines: seq<string>, l: nat): Position
    requires l < |lines|
  {
    Position(l, IndexOf(lines[l], '{') + 1)
  }

  /** The upward loop over `lineWithBrace`: a line with `{` is taken when
      nothing but white space follows its first `{`, or when it is above the
      cursor line. */
  function BraceLineFrom(lines: seq<string>, cur: nat, k: int): Option<Position>
    requires cur < |lines| && -1 <= k <= cur
    decreases k + 1
  {
    if k < 0 then None
    else
      var b := IndexOf(lines[k], '{');
      if b != -1 && (Trim(lines[k][b + 1..]) == [] || cur > k) then Some(Position(k, b + 1))
      else BraceLineFrom(lines, cur, k - 1)
  }

  /** The insertion position. */
  function InsertPosition(lines: seq<string>, pos: Position): Position
    requires pos.line < |lines|
  {
    var b := IndexOf(lines[pos.line], '{');
    if b != -1 then Position(pos.line, b + 1)
    else match BraceLineFrom(lines, pos.line, pos.line)
      case Some(p) => p
      case None => pos
  }

  /** The computation of `insertPosition`. */
  method FindInsertPosition(lines: seq<string>, pos: Position) returns (at: Position)
    requires pos.line < |lines|
    ensures at == InsertPosition(lines, pos)
  {
    var braceIndex := IndexOf(lines[pos.line], '{');
    if braceIndex != -1 {
      return Position(pos.line, braceIndex + 1);
    }
    var lineWithBrace := pos.line as int;
    while lineWithBrace >= 0
      invariant -1 <= lineWithBrace <= pos.line
      invariant BraceLineFrom(lines, pos.line, lineWithBrace) == BraceLineFrom(lines, pos.line, pos.line)
      decreases lineWithBrace + 1
    {
      var checkText := lines[lineWithBrace];
      var checkBraceIndex := IndexOf(checkText, '{');
      if checkBraceIndex != -1 {
        var textAfterBrace := Trim(checkText[checkBraceIndex + 1..]);
        if textAfterBrace == [] || pos.line > lineWithBrace {
          return Position(lineWithBrace, checkBraceIndex + 1);
        }
      }
      lineWithBrace := lineWithBrace - 1;
    }
    return pos;
  }

  lemma {:induction false} BraceLineFromAbove(lines: seq<string>, cur: nat, k: int)
    requires cur < |lines| && -1 <= k < cur
    ensures BraceLineFrom(lines, cur, k) ==
            match BraceAbove(lines, k) case Some(l) => Some(AfterBrace(lines, l)) case None => None
    decreases k + 1
  {
    if k >= 0 && '{' !in lines[k] {
      BraceLineFromAbove(lines, cur, k - 1);
    }
  }

  /** The code goes right after the first `{` of the nearest line at or
      above the cursor that holds one, or at the cursor when there is none:
      the test on the text after the brace never decides anything, as the
      cursor line has no `{` when it is reached and every other line is
      above the cursor. */
  lemma InsertAtNearestBrace(lines: seq<string>, pos: Position)
    requires pos.line < |lines|
    ensures InsertPosition(lines, pos) ==
            match BraceAbove(lines, pos.line) case Some(l) => AfterBrace(lines, l) case None => pos
  {
    if '{' !in lines[pos.line] {
      BraceLineFromAbove(lines, pos.line, pos.line - 1);
    }
  }
}
