/** The regular expressions of the command, each written out as a matcher for
    the one shape it accepts. A matcher is applied to the suffix of the text
    that starts where the regular-expression engine tries a match, and returns
    the captured groups (and, for patterns used with the `g` flag, the number of
    characters consumed, which is where the engine's `lastIndex` moves to).
    Where a greedy quantifier could give characters back, the matcher says
    whether that can change the outcome; in all but two places it cannot,
    because the next element of the pattern cannot match what would be given
    back. */
module Patterns {
  import opened Options
  import opened Text

  predicate NotBrace(c: char) { c != '{' && c != '}' }
  predicate NotCloseBrace(c: char) { c != '}' }
  predicate NotNewline(c: char) { c != '\n' }
  predicate NotNewlineOrSemicolon(c: char) { c != '\n' && c != ';' }
  predicate NotBacktick(c: char) { c != '`' }

  /** Leftmost match of a pattern without the `g` flag (`match`, `test`):
      the first position where the matcher succeeds, with its result. */
  function FirstMatch<T>(m: string -> Option<T>, s: string): (r: Option<(nat, T)>)
    ensures r.Some? ==> r.value.0 <= |s| && m(s[r.value.0..]) == Some(r.value.1)
    ensures r.Some? ==> forall i :: 0 <= i < r.value.0 ==> m(s[i..]).None?
    ensures r.None? ==> forall i :: 0 <= i <= |s| ==> m(s[i..]).None?
    decreases |s|
  {
    match m(s)
    case Some(x) => Some((0, x))
    case None =>
      if s == [] then None
      else
        var rest := FirstMatch(m, s[1..]);
        assert forall i :: 1 <= i <= |s| ==> s[i..] == s[1..][i - 1..];
        match rest
        case None => None
        case Some((i, x)) => Some((i + 1, x))
  }

  /** The matches repeated `exec` calls of a global regex find in a text, in
      order, where `at` tries the pattern at the start of a text: after a
      match the search resumes where it ended, otherwise one character
      later. A match that would not move the search on is skipped like a
      failed attempt. */
  function TokensIn(body: string, at: string -> Option<FieldToken>): seq<FieldToken>
    decreases |body|
  {
    if body == [] then []
    else match at(body)
      case Some(tok) =>
        if 0 < tok.length <= |body| then [tok] + TokensIn(body[tok.length..], at)
        else TokensIn(body[1..], at)
      case None => TokensIn(body[1..], at)
  }

  lemma TokensInMatch(body: string, at: string -> Option<FieldToken>, tok: FieldToken)
    requires at(body) == Some(tok) && 0 < tok.length <= |body|
    ensures TokensIn(body, at) == [tok] + TokensIn(body[tok.length..], at)
  {
  }

  lemma TokensInMiss(body: string, at: string -> Option<FieldToken>)
    requires body != [] && at(body).None?
    ensures TokensIn(body, at) == TokensIn(body[1..], at)
  {
  }

  /** A property of every match of `at` holds of every match found. */
  lemma {:induction false} TokensInHold(body: string, at: string -> Option<FieldToken>, P: FieldToken -> bool)
    requires forall t :: at(t).Some? ==> P(at(t).value)
    ensures forall k :: 0 <= k < |TokensIn(body, at)| ==> P(TokensIn(body, at)[k])
    decreases |body|
  {
    if body != [] {
      match at(body) {
        case Some(tok) =>
          if 0 < tok.length <= |body| {
            TokensInHold(body[tok.length..], at, P);
            TokensInMatch(body, at, tok);
          } else {
            TokensInHold(body[1..], at, P);
          }
        case None =>
          TokensInHold(body[1..], at, P);
      }
    }
  }

  /** The search has reached offset `pos` having found `done`: what is left
      to find is exactly what the rest of the text holds. */
  predicate ScannedTo(body: string, pos: nat, done: seq<FieldToken>, at: string -> Option<FieldToken>) {
    pos <= |body| && done + TokensIn(body[pos..], at) == TokensIn(body, at)
  }

  lemma ScanStart(body: string, at: string -> Option<FieldToken>)
    ensures ScannedTo(body, 0, [], at)
  {
    assert body[0..] == body;
  }

  /** A match at offset `pos` that moves the search on is the next match. */
  lemma MatchStep(body: string, pos: nat, done: seq<FieldToken>, at: string -> Option<FieldToken>, tok: FieldToken)
    requires pos < |body| && at(body[pos..]) == Some(tok) && 0 < tok.length <= |body| - pos
    requires ScannedTo(body, pos, done, at)
    ensures ScannedTo(body, pos + tok.length, done + [tok], at)
  {
    var u := body[pos..];
    var rest := TokensIn(body[pos + tok.length..], at);
    assert u[tok.length..] == body[pos + tok.length..];
    assert TokensIn(u, at) == [tok] + rest;
    assert done + ([tok] + rest) == (done + [tok]) + rest;
  }

  /** Otherwise the search moves one character on. */
  lemma MissStep(body: string, pos: nat, done: seq<FieldToken>, at: string -> Option<FieldToken>)
    requires pos < |body| && !(at(body[pos..]).Some? && 0 < at(body[pos..]).value.length <= |body| - pos)
    requires ScannedTo(body, pos, done, at)
    ensures ScannedTo(body, pos + 1, done, at)
  {
    var u := body[pos..];
    assert u[1..] == body[pos + 1..];
    assert TokensIn(u, at) == TokensIn(u[1..], at);
  }

  // ---------------------------------------------------------------------
  // (?:var\s+)?(\w+)\s*(?:=|\:=)\s*(?:&)?([\w\.]+)\s*{
  // ---------------------------------------------------------------------

  /** The pattern from `(\w+)` on, returning group 2 (the type name). Every
      quantifier is forced to its longest run: giving back a character would
      leave one that the next element of the pattern rejects. */
  function AssignmentAt(t: string): (r: Option<string>)
    ensures r.Some? ==> r.value != [] && forall k :: 0 <= k < |r.value| ==> IsNameChar(r.value[k])
  {
    var j := SpanEnd(t, 0, IsWordChar);
    if j == 0 then None
    else
      var k := SpanEnd(t, j, IsSpace);
      var op := if k < |t| && t[k] == '=' then k + 1
                else if k + 1 < |t| && t[k] == ':' && t[k + 1] == '=' then k + 2
                else 0;
      if op == 0 then None
      else
        var m := SpanEnd(t, op, IsSpace);
        var a := if m < |t| && t[m] == '&' then m + 1 else m;
        var n := SpanEnd(t, a, IsNameChar);
        if n == a then None
        else
          var p := SpanEnd(t, n, IsSpace);
          if p < |t| && t[p] == '{' then Some(t[a..n]) else None
  }

  /** The whole initializer pattern at the start of `t`: the optional
      `var\s+` prefix is tried first, and dropped if the rest then fails. */
  function InitializerAt(t: string): (r: Option<string>)
    ensures r.Some? ==> r.value != [] && forall k :: 0 <= k < |r.value| ==> IsNameChar(r.value[k])
  {
    if |t| > 3 && t[..3] == "var" && IsSpace(t[3]) then
      match AssignmentAt(t[SpanEnd(t, 3, IsSpace)..])
      case Some(name) => Some(name)
      case None => AssignmentAt(t)
    else AssignmentAt(t)
  }

  /** `text.match(initializer)`: the type name of the leftmost initializer. */
  function Initializer(s: string): (r: Option<string>)
    ensures r.Some? <==> exists i :: 0 <= i <= |s| && InitializerAt(s[i..]).Some?
  {
    match FirstMatch(InitializerAt, s)
    case Some((_, name)) => Some(name)
    case None => None
  }

  // ---------------------------------------------------------------------
  // (\w+):\s*([\w\.]+)\s*{     and     (\w+):\s*(\w+)\s*{
  // ---------------------------------------------------------------------

  /** A field whose value opens a composite literal, `Field: Type{`, returning
      the type name (group 2), whose characters satisfy `typeChar`. */
  function FieldLiteralAt(t: string, typeChar: char -> bool): (r: Option<string>)
    ensures r.Some? ==> r.value != [] && forall k :: 0 <= k < |r.value| ==> typeChar(r.value[k])
  {
    var j := SpanEnd(t, 0, IsWordChar);
    if j == 0 || j == |t| || t[j] != ':' then None
    else
      var k := SpanEnd(t, j + 1, IsSpace);
      var n := SpanEnd(t, k, typeChar);
      if n == k then None
      else
        var p := SpanEnd(t, n, IsSpace);
        if p < |t| && t[p] == '{' then Some(t[k..n]) else None
  }

  /** `(\w+):\s*([\w\.]+)\s*{` at the start of `t`. */
  function NestedLiteralAt(t: string): Option<string> {
    FieldLiteralAt(t, IsNameChar)
  }

  /** `(\w+):\s*(\w+)\s*{` at the start of `t`. */
  function PlainNestedLiteralAt(t: string): Option<string> {
    FieldLiteralAt(t, IsWordChar)
  }

  /** `line.match(/(\w+):\s*([\w\.]+)\s*{/)`: the type name of the leftmost
      nested literal on a line. */
  function NestedLiteral(s: string): (r: Option<string>)
    ensures r.Some? <==> exists i :: 0 <= i <= |s| && NestedLiteralAt(s[i..]).Some?
  {
    match FirstMatch(NestedLiteralAt, s)
    case Some((_, name)) => Some(name)
    case None => None
  }

  /** `/(\w+):\s*(\w+)\s*{/.test(line)`. */
  predicate HasPlainNestedLiteral(s: string) {
    FirstMatch(PlainNestedLiteralAt, s).Some?
  }

  // ---------------------------------------------------------------------
  // ^\s*(\w+):\s*(.+),?\s*$
  // ---------------------------------------------------------------------

  /** `^\s*(\w+):\s*(.+),?\s*$`. After the colon the text must read
      white space, then a non-empty run free of line terminators (which may
      end in the optional comma), then white space. When the rest holds a
      character other than white space, that run must cover everything between
      the first and the last such character; when it is all white space, one
      character that is not a line terminator serves as the run. */
  predicate IsFieldAssignment(s: string) {
    var a := SpanEnd(s, 0, IsSpace);
    var j := SpanEnd(s, a, IsWordChar);
    j > a && j < |s| && s[j] == ':' &&
    var rest := s[j + 1..];
    var core := Trim(rest);
    if core == [] then exists k :: 0 <= k < |rest| && !IsLineTerminator(rest[k])
    else forall k :: 0 <= k < |core| ==> !IsLineTerminator(core[k])
  }

  // ---------------------------------------------------------------------
  // (\w+)\s*:=\s*(\w+)\s*{      (used with the g flag)
  // ---------------------------------------------------------------------

  /** A short variable declaration opening a literal, `name := Type{`;
      returns the length of the match. */
  function ShortDeclarationAt(t: string): (r: Option<nat>)
    ensures r.Some? ==> 0 < r.value <= |t| && t[r.value - 1] == '{' && IsWordChar(t[0])
  {
    var j := SpanEnd(t, 0, IsWordChar);
    if j == 0 then None
    else
      var k := SpanEnd(t, j, IsSpace);
      if !(k + 1 < |t| && t[k] == ':' && t[k + 1] == '=') then None
      else TypeOpenFrom(t, k + 2)
  }

  /** `\s*(\w+)\s*{` from position `i`, just after `:=`; returns the end of
      the match. */
  function TypeOpenFrom(t: string, i: nat): (r: Option<nat>)
    requires i <= |t|
    ensures r.Some? ==> i < r.value <= |t| && t[r.value - 1] == '{'
  {
    var m := SpanEnd(t, i, IsSpace);
    var n := SpanEnd(t, m, IsWordChar);
    if n == m then None
    else
      var p := SpanEnd(t, n, IsSpace);
      if p < |t| && t[p] == '{' then Some(p + 1) else None
  }

  // ---------------------------------------------------------------------
  // {([^{}]*)}
  // ---------------------------------------------------------------------

  /** A brace pair with no other brace inside; returns the text between. */
  function BraceBodyAt(t: string): (r: Option<string>)
    ensures r.Some? ==> |r.value| + 2 <= |t| && t[0] == '{' && t[1..|r.value| + 1] == r.value
                        && t[|r.value| + 1] == '}'
    ensures r.Some? ==> '{' !in r.value && '}' !in r.value
  {
    if t == [] || t[0] != '{' then None
    else
      var j := SpanEnd(t, 1, NotBrace);
      if j < |t| && t[j] == '}' then Some(t[1..j]) else None
  }

  // ---------------------------------------------------------------------
  // (\w+)\s+([*]?[a-zA-Z0-9_\.\[\]<>]+)(?:\s*`[^`]*`)?(?:\s*\/\/[^\n]*)?
  // ---------------------------------------------------------------------

  /** One match of the field pattern of a struct body. */
  datatype FieldToken = FieldToken(name: string, typeToken: string, length: nat)

  /** The field pattern at the start of `t`: a name, white space, an
      optional `*` and a type token, then an optional struct tag and an
      optional line comment, which are consumed but not captured. */
  function StructFieldAt(t: string): (r: Option<FieldToken>)
    ensures r.Some? ==> 0 < r.value.length <= |t|
    ensures r.Some? ==> r.value.name != [] && r.value.name <= t
                        && forall k :: 0 <= k < |r.value.name| ==> IsWordChar(r.value.name[k])
    ensures r.Some? ==> var ty := r.value.typeToken;
                        ty != [] && ty != "*"
                        && forall k :: 0 <= k < |ty| ==> IsTypeChar(ty[k]) || (k == 0 && ty[k] == '*')
  {
    var j := SpanEnd(t, 0, IsWordChar);
    if j == 0 then None
    else
      var k := SpanEnd(t, j, IsSpace);
      if k == j then None
      else
        var a := if k < |t| && t[k] == '*' then k + 1 else k;
        var n := SpanEnd(t, a, IsTypeChar);
        if n == a then None
        else
          WordPrefix(t, j);
          TypeTokenRun(t, k, a, n);
          Some(FieldToken(t[..j], t[k..n], TagCommentEnd(t, n)))
  }

  /** A run of word characters at the start of `t` is a non-empty prefix
      made of word characters. */
  lemma WordPrefix(t: string, j: nat)
    requires 0 < j <= |t| && forall i :: 0 <= i < j ==> IsWordChar(t[i])
    ensures t[..j] != [] && t[..j] <= t && forall i :: 0 <= i < |t[..j]| ==> IsWordChar(t[..j][i])
  {
  }

  /** A type token with an optional leading `*`: type characters after it,
      and at least one of them. */
  lemma TypeTokenRun(t: string, k: nat, a: nat, n: nat)
    requires k <= a <= k + 1 && a < n <= |t| && (a == k + 1 ==> t[k] == '*')
    requires forall i :: a <= i < n ==> IsTypeChar(t[i])
    ensures var ty := t[k..n];
            ty != [] && ty != "*" && forall i :: 0 <= i < |ty| ==> IsTypeChar(ty[i]) || (i == 0 && ty[i] == '*')
  {
    var ty := t[k..n];
    assert |ty| == n - k;
    forall i | 0 <= i < |ty| ensures IsTypeChar(ty[i]) || (i == 0 && ty[i] == '*') {
      assert ty[i] == t[k + i];
    }
    if |ty| == 1 {
      assert a == k && IsTypeChar(ty[0]);
    }
  }

  /** Where the optional struct tag and line comment after a type token
      ending at `n` stop; `n` itself when neither is there. */
  function TagCommentEnd(t: string, n: nat): (end: nat)
    requires n <= |t|
    ensures n <= end <= |t|
  {
    var b := SpanEnd(t, n, IsSpace);
    var tagEnd := if b < |t| && t[b] == '`' && SpanEnd(t, b + 1, NotBacktick) < |t|
                  then SpanEnd(t, b + 1, NotBacktick) + 1
                  else n;
    var c := SpanEnd(t, tagEnd, IsSpace);
    if c + 1 < |t| && t[c] == '/' && t[c + 1] == '/'
    then SpanEnd(t, c + 2, NotNewline)
    else tagEnd
  }

  // ---------------------------------------------------------------------
  // type\s+<NAME>\s+struct\s*{([^}]*)}
  // ---------------------------------------------------------------------

  /** The type name spliced into the pattern is not escaped: a `.` in it
      matches any character other than a line terminator. */
  predicate NameMatches(t: string, name: string) {
    |name| <= |t| &&
    forall k :: 0 <= k < |name| ==>
      if name[k] == '.' then !IsLineTerminator(t[k]) else t[k] == name[k]
  }

  /** The declaration pattern with the type name starting at `j`: white space,
      `struct`, white space, `{`, and the body up to the first `}`. */
  function DeclarationBodyFrom(t: string, name: string, j: nat): (r: Option<string>)
    requires j <= |t|
    ensures r.Some? ==> '}' !in r.value
  {
    if !NameMatches(t[j..], name) then None
    else StructBodyFrom(t, j + |name|)
  }

  /** `\s+struct\s*{([^}]*)}` from position `k`, just after the type name. */
  function StructBodyFrom(t: string, k: nat): (r: Option<string>)
    requires k <= |t|
    ensures r.Some? ==> '}' !in r.value
  {
    var m := SpanEnd(t, k, IsSpace);
    if m == k || !("struct" <= t[m..]) then None
    else BraceBodyFrom(t, m + 6)
  }

  /** `\s*{([^}]*)}` from position `i`, just after `struct`. */
  function BraceBodyFrom(t: string, i: nat): (r: Option<string>)
    requires i <= |t|
    ensures r.Some? ==> '}' !in r.value
  {
    var p := SpanEnd(t, i, IsSpace);
    if p == |t| || t[p] != '{' then None
    else
      var q := SpanEnd(t, p + 1, NotCloseBrace);
      if q == |t| then None
      else
        Some(t[p + 1..q])
  }

  /** `\s+` before the name gives back characters one at a time when the
      name does not match after the longest run (which can only help when
      the name starts with `.`). */
  function DeclarationRetry(t: string, name: string, j: nat): (r: Option<string>)
    requires 5 <= j <= |t|
    ensures r.Some? ==> '}' !in r.value
    decreases j
  {
    match DeclarationBodyFrom(t, name, j)
    case Some(body) => Some(body)
    case None => if j > 5 then DeclarationRetry(t, name, j - 1) else None
  }

  /** The declaration pattern at the start of `t`; returns group 1 (the body). */
  function DeclarationAt(t: string, name: string): (r: Option<string>)
    ensures r.Some? ==> '}' !in r.value
  {
    if !("type" <= t) then None
    else
      var j := SpanEnd(t, 4, IsSpace);
      if j == 4 then None else DeclarationRetry(t, name, j)
  }

  // ---------------------------------------------------------------------
  // (\w+)\s+([^\n;]+)      (used with the g flag)
  // ---------------------------------------------------------------------

  /** The field pattern of the declaration fallback: group 2 runs to the end
      of the line or to a `;`. If the longest `\s+` run ends at a newline, a
      `;` or the end of the text, `\s+` gives back white space until `[^\n;]`
      can start; a single given-back blank becomes the whole of group 2. */
  function LooseValueFrom(t: string, j: nat, p: nat): (r: Option<FieldToken>)
    requires 0 < j < p <= |t|
    ensures r.Some? ==> r.value.name == t[..j] && j < r.value.length <= |t|
    ensures r.Some? ==> r.value.typeToken != [] && '\n' !in r.value.typeToken
                        && ';' !in r.value.typeToken
    decreases p
  {
    if p < |t| && NotNewlineOrSemicolon(t[p]) then
      var q := SpanEnd(t, p, NotNewlineOrSemicolon);
      assert forall i :: 0 <= i < q - p ==> t[p..q][i] == t[p + i];
      Some(FieldToken(t[..j], t[p..q], q))
    else if p > j + 1 then LooseValueFrom(t, j, p - 1)
    else None
  }

  /** `(\w+)\s+([^\n;]+)` at the start of `t`. */
  function LooseFieldAt(t: string): (r: Option<FieldToken>)
    ensures r.Some? ==> 0 < r.value.length <= |t|
    ensures r.Some? ==> r.value.name != [] && r.value.name <= t
                        && forall k :: 0 <= k < |r.value.name| ==> IsWordChar(r.value.name[k])
  {
    var j := SpanEnd(t, 0, IsWordChar);
    if j == 0 then None
    else
      var k := SpanEnd(t, j, IsSpace);
      if k == j then None else LooseValueFrom(t, j, k)
  }

  // ---------------------------------------------------------------------
  // new RegExp(`\\b${name}\\s*:`, 'i')
  // ---------------------------------------------------------------------

  /** `\b` between positions `i - 1` and `i`. */
  predicate WordBoundary(s: string, i: nat) {
    (i > 0 && i - 1 < |s| && IsWordChar(s[i - 1])) != (i < |s| && IsWordChar(s[i]))
  }

  /** The key pattern matched at position `i`: a word boundary, the name
      without regard to ASCII case, optional white space and a colon. */
  predicate KeyAt(s: string, name: string, i: nat) {
    i + |name| <= |s| && WordBoundary(s, i) && ToLower(s[i..i + |name|]) == ToLower(name)
    && var k := SpanEnd(s, i + |name|, IsSpace);
    k < |s| && s[k] == ':'
  }

  /** `new RegExp('\\b' + name + '\\s*:', 'i').test(s)`, for a name made of
      characters that stand for themselves in a pattern. */
  predicate MentionsKey(s: string, name: string) {
    exists i :: 0 <= i <= |s| && KeyAt(s, name, i)
  }
}
