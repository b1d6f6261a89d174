/** Optional values, as JavaScript's `undefined`/`null` results are modelled. */
module Options {
  datatype Option<+T> = None | Some(value: T)
}

/** The pieces of the JavaScript runtime the command relies on: the regular
    expression classes `\w` and `\s`, `indexOf`, `includes`, `startsWith`,
    `replace` with a one-character pattern, `toLowerCase`, `trim`, `split` and
    `join`. Strings are sequences of characters. */
module Text {

  /** `\w`: ASCII letters, digits and the underscore. */
  predicate IsWordChar(c: char) {
    ('a' <= c <= 'z') || ('A' <= c <= 'Z') || ('0' <= c <= '9') || c == '_'
  }

  /** The characters that `.` in a regular expression does not match. */
  predicate IsLineTerminator(c: char) {
    c == '\n' || c == '\r' || c == '\U{2028}' || c == '\U{2029}'
  }

  /** `\s`, which is also the set of characters `trim` removes. */
  predicate IsSpace(c: char) {
    c == ' ' || c == '\t' || c == '\U{000B}' || c == '\U{000C}' || IsLineTerminator(c)
    || c == '\U{00A0}' || c == '\U{1680}' || ('\U{2000}' <= c <= '\U{200A}')
    || c == '\U{202F}' || c == '\U{205F}' || c == '\U{3000}' || c == '\U{FEFF}'
  }

  /** `[\w\.]`, the characters of a possibly package-qualified type name. */
  predicate IsNameChar(c: char) {
    IsWordChar(c) || c == '.'
  }

  /** `[a-zA-Z0-9_\.\[\]<>]`, the characters of a field type token. */
  predicate IsTypeChar(c: char) {
    IsWordChar(c) || c == '.' || c == '[' || c == ']' || c == '<' || c == '>'
  }

  /** ASCII lower-casing of one character. */
  function LowerChar(c: char): (d: char)
    ensures IsWordChar(d) == IsWordChar(c)
    ensures ('A' <= c <= 'Z') ==> d != c
    ensures !('A' <= c <= 'Z') ==> d == c
  {
    if 'A' <= c <= 'Z' then (c as int + 32) as char else c
  }

  /** `toLowerCase`, restricted to ASCII letters. */
  function ToLower(s: string): (r: string)
  {
    seq(|s|, i requires 0 <= i < |s| => LowerChar(s[i]))
  }

  /** `indexOf` of a single character: the first position holding `c`, or -1. */
  function IndexOf(s: string, c: char): (r: int)
    ensures r == -1 <==> c !in s
    ensures r != -1 ==> 0 <= r < |s| && s[r] == c && c !in s[..r]
  {
    if |s| == 0 then -1
    else if s[0] == c then 0
    else
      var k := IndexOf(s[1..], c);
      assert s[1..][..if k == -1 then 0 else k] == s[1..if k == -1 then 1 else k + 1];
      if k == -1 then -1 else k + 1
  }

  /** `includes` of a substring. */
  predicate Includes(s: string, t: string)
    decreases |s|
  {
    t <= s || (|s| > 0 && Includes(s[1..], t))
  }

  /** An occurrence of `t` at a position of `s` makes `s` include `t`. */
  lemma {:induction false} IncludesAt(s: string, t: string, i: nat)
    requires i + |t| <= |s| && s[i..i + |t|] == t
    ensures Includes(s, t)
    decreases i
  {
    if i == 0 {
      assert t <= s;
    } else {
      assert s[1..][i - 1..i - 1 + |t|] == t;
      IncludesAt(s[1..], t, i - 1);
    }
  }

  /** `includes` finds exactly the occurrences of `t` at some position. */
  lemma {:induction false} IncludesWitness(s: string, t: string) returns (i: nat)
    requires Includes(s, t)
    ensures i + |t| <= |s| && s[i..i + |t|] == t
    decreases |s|
  {
    if t <= s {
      i := 0;
    } else {
      var j := IncludesWitness(s[1..], t);
      i := j + 1;
      assert s[i..i + |t|] == s[1..][j..j + |t|];
    }
  }

  /** The end of the run of characters satisfying `p` that starts at `i`:
      what a greedy `p*` consumes from there. */
  function SpanEnd(s: string, i: nat, p: char -> bool): (j: nat)
    requires i <= |s|
    ensures i <= j <= |s|
    ensures forall k :: i <= k < j ==> p(s[k])
    ensures j == |s| || !p(s[j])
    decreases |s| - i
  {
    if i < |s| && p(s[i]) then SpanEnd(s, i + 1, p) else i
  }

  /** A run that is known to stop at `j` ends at `j`. */
  lemma {:induction false} SpanEndAt(s: string, i: nat, j: nat, p: char -> bool)
    requires i <= j <= |s|
    requires forall k :: i <= k < j ==> p(s[k])
    requires j == |s| || !p(s[j])
    ensures SpanEnd(s, i, p) == j
    decreases j - i
  {
    if i < j {
      SpanEndAt(s, i + 1, j, p);
    }
  }

  /** What `^\s*` matches: the leading white space of a line. */
  function LeadingSpace(s: string): (r: string)
    ensures r <= s
    ensures forall k :: 0 <= k < |r| ==> IsSpace(r[k])
    ensures |r| == |s| || !IsSpace(s[|r|])
  {
    s[..SpanEnd(s, 0, IsSpace)]
  }

  /** Leading white space only depends on the text up to the first other character. */
  lemma {:induction false} LeadingSpaceOfPrefix(s: string, n: nat, k: nat)
    requires k < n <= |s| && !IsSpace(s[k])
    ensures LeadingSpace(s[..n]) == LeadingSpace(s)
  {
    var a, b := LeadingSpace(s[..n]), LeadingSpace(s);
    assert s[..n][k] == s[k];
    assert forall j :: 0 <= j < |a| ==> a[j] == s[j];
    assert forall j :: 0 <= j < |b| ==> b[j] == s[j];
    assert |a| <= k && |b| <= k;
    assert |a| == |b|;
  }

  /** Removes trailing white space. */
  function TrimEnd(s: string): (r: string)
    ensures r <= s
    ensures forall k :: |r| <= k < |s| ==> IsSpace(s[k])
    ensures r == [] || !IsSpace(r[|r| - 1])
  {
    if s != [] && IsSpace(s[|s| - 1]) then
      var r := TrimEnd(s[..|s| - 1]);
      assert s[..|s| - 1][..|r|] == s[..|r|];
      r
    else s
  }

  /** `trim`: removes leading and trailing white space. */
  function Trim(s: string): (r: string)
    ensures r == [] <==> forall k :: 0 <= k < |s| ==> IsSpace(s[k])
    ensures r != [] ==> !IsSpace(r[0]) && !IsSpace(r[|r| - 1])
  {
    var a := SpanEnd(s, 0, IsSpace);
    var r := TrimEnd(s[a..]);
    assert r != [] ==> r[0] == s[a];
    r
  }

  /** `trim` removes exactly a run of white space at each end: the result is
      a slice of the input with nothing but white space before and after it. */
  lemma TrimStrips(s: string) returns (a: nat)
    ensures a + |Trim(s)| <= |s| && Trim(s) == s[a..a + |Trim(s)|]
    ensures forall k :: 0 <= k < a ==> IsSpace(s[k])
    ensures forall k :: a + |Trim(s)| <= k < |s| ==> IsSpace(s[k])
  {
    a := SpanEnd(s, 0, IsSpace);
    var r := TrimEnd(s[a..]);
    assert Trim(s) == r;
    assert r == s[a..][..|r|] == s[a..a + |r|];
    forall k | a + |r| <= k < |s| ensures IsSpace(s[k]) {
      assert s[k] == s[a..][k - a];
    }
  }

  /** Text without white space is its own trimmed form. */
  lemma TrimUnspaced(s: string)
    requires forall k :: 0 <= k < |s| ==> !IsSpace(s[k])
    ensures Trim(s) == s
  {
    SpanEndAt(s, 0, 0, IsSpace);
    assert s[0..] == s;
  }

  /** The positions in `idx` grow strictly from left to right. */
  predicate Increasing(idx: seq<nat>) {
    forall k, l :: 0 <= k < l < |idx| ==> idx[k] < idx[l]
  }

  /** `startsWith`. */
  predicate StartsWith(s: string, t: string) {
    t <= s
  }

  /** `replace(c, '')` with a one-character string pattern: only the first
      occurrence of `c` is removed. */
  function RemoveFirst(s: string, c: char): (r: string)
    ensures c !in s ==> r == s
    ensures c in s ==> r == s[..IndexOf(s, c)] + s[IndexOf(s, c) + 1..]
  {
    if s == [] then []
    else if s[0] == c then s[1..]
    else
      var r := [s[0]] + RemoveFirst(s[1..], c);
      if c in s then
        var j := IndexOf(s[1..], c);
        assert IndexOf(s, c) == j + 1;
        ConsRemove(s[0], s[1..], j);
        assert s == [s[0]] + s[1..];
        r
      else
        r
  }

  /** Removing the character after position `j` of `a` commutes with
      putting `x` in front. */
  lemma ConsRemove(x: char, a: string, j: nat)
    requires j < |a|
    ensures [x] + (a[..j] + a[j + 1..]) == ([x] + a)[..j + 1] + ([x] + a)[j + 2..]
  {
    var s := [x] + a;
    assert s[..j + 1] == [x] + a[..j];
    assert s[j + 2..] == a[j + 1..];
  }

  /** `split(sep)[0]` for a non-empty separator string: the text before the
      first occurrence of `sep`. */
  function BeforeFirst(s: string, sep: string): string
    requires sep != []
  {
    if sep <= s || s == [] then []
    else [s[0]] + BeforeFirst(s[1..], sep)
  }

  /** The text before the first separator is a prefix of `s` holding no
      occurrence of `sep`, and it is all of `s` or is followed by `sep`. */
  lemma {:induction false} BeforeFirstSplits(s: string, sep: string)
    requires sep != []
    ensures var r := BeforeFirst(s, sep);
            r <= s && (r == s || sep <= s[|r|..])
            && forall k :: 0 <= k < |r| ==> !(sep <= s[k..])
  {
    if !(sep <= s || s == []) {
      BeforeFirstSplits(s[1..], sep);
      var r := BeforeFirst(s, sep);
      assert r == [s[0]] + BeforeFirst(s[1..], sep);
      assert forall k :: 1 <= k < |r| ==> s[k..] == s[1..][k - 1..];
    }
  }

  /** Text without `/` holds no `//` to split at. */
  lemma BeforeFirstAbsent(s: string, sep: string)
    requires sep != [] && sep[0] !in s
    ensures BeforeFirst(s, sep) == s
  {
  }

  /** `split(c)` with a one-character separator. */
  function Split(s: string, c: char): (r: seq<string>)
    ensures |r| >= 1
    ensures forall k :: 0 <= k < |r| ==> c !in r[k]
    decreases |s|
  {
    var i := IndexOf(s, c);
    if i == -1 then [s] else [s[..i]] + Split(s[i + 1..], c)
  }

  /** The first part of a split runs up to the first separator, or to the
      end when there is none; the other parts split what follows it. */
  lemma SplitFirst(s: string, c: char)
    ensures var x := Split(s, c)[0];
            x <= s && (|x| == |s| || s[|x|] == c)
    ensures |Split(s, c)| > 1 <==> c in s
    ensures |Split(s, c)| > 1 ==>
            Split(s, c)[1..] == Split(s[|Split(s, c)[0]| + 1..], c)
  {
    var i := IndexOf(s, c);
    if i != -1 {
      assert Split(s, c) == [s[..i]] + Split(s[i + 1..], c);
    }
  }

  /** `join(c)` with a one-character separator. */
  function Join(xs: seq<string>, c: char): (r: string)
  {
    if |xs| == 0 then ""
    else if |xs| == 1 then xs[0]
    else xs[0] + [c] + Join(xs[1..], c)
  }

  /** `indexOf` finds a position holding `c` with no `c` before it. */
  lemma {:induction false} IndexOfAt(s: string, c: char, i: nat)
    requires i < |s| && s[i] == c && c !in s[..i]
    ensures IndexOf(s, c) == i
  {
    if i > 0 {
      assert s[1..][..i - 1] == s[1..i];
      assert s[0] == s[..i][0];
      IndexOfAt(s[1..], c, i - 1);
    }
  }

  /** Joining a first part in front of at least one more. */
  lemma JoinCons(x: string, xs: seq<string>, c: char)
    requires |xs| >= 1
    ensures Join([x] + xs, c) == x + [c] + Join(xs, c)
  {
    assert ([x] + xs)[1..] == xs;
  }

  /** Splitting at the first separator. */
  lemma SplitAt(s: string, c: char, i: nat)
    requires i < |s| && s[i] == c && c !in s[..i]
    ensures Split(s, c) == [s[..i]] + Split(s[i + 1..], c)
  {
    IndexOfAt(s, c, i);
  }

  /** Splitting undoes joining when no part holds the separator. */
  lemma {:induction false} SplitJoin(xs: seq<string>, c: char)
    requires |xs| >= 1
    requires forall k :: 0 <= k < |xs| ==> c !in xs[k]
    ensures Split(Join(xs, c), c) == xs
  {
    if |xs| == 1 {
      assert c !in xs[0];
    } else {
      var x, rest := xs[0], Join(xs[1..], c);
      var s := Join(xs, c);
      JoinCons(x, xs[1..], c);
      assert xs == [x] + xs[1..];
      assert s == x + [c] + rest;
      assert s[..|x|] == x && s[|x|] == c && s[|x| + 1..] == rest;
      assert c !in x;
      SplitAt(s, c, |x|);
      SplitJoin(xs[1..], c);
    }
  }

  /** Joining undoes splitting. */
  lemma {:induction false} JoinSplit(s: string, c: char)
    ensures Join(Split(s, c), c) == s
    decreases |s|
  {
    var i := IndexOf(s, c);
    if i != -1 {
      var rest := Split(s[i + 1..], c);
      SplitAt(s, c, i);
      JoinSplit(s[i + 1..], c);
      JoinCons(s[..i], rest, c);
      assert s == s[..i] + [c] + s[i + 1..];
    }
  }

  /** Joining a list with one more part at the end. */
  lemma {:induction false} JoinSnoc(xs: seq<string>, y: string, c: char)
    requires |xs| >= 1
    ensures Join(xs + [y], c) == Join(xs, c) + [c] + y
  {
    if |xs| > 1 {
      JoinSnoc(xs[1..], y, c);
      assert (xs + [y])[1..] == xs[1..] + [y];
    }
  }

  /** Each part occurs in the joined text, at a position given back. */
  lemma {:induction false} JoinHasPart(xs: seq<string>, c: char, k: nat) returns (p: nat)
    requires k < |xs|
    ensures p + |xs[k]| <= |Join(xs, c)| && Join(xs, c)[p..p + |xs[k]|] == xs[k]
  {
    if |xs| == 1 {
      p := 0;
    } else if k == 0 {
      p := 0;
      assert Join(xs, c) == xs[0] + ([c] + Join(xs[1..], c));
    } else {
      var q := JoinHasPart(xs[1..], c, k - 1);
      p := |xs[0]| + 1 + q;
      var j := Join(xs[1..], c);
      assert Join(xs, c) == (xs[0] + [c]) + j;
      assert Join(xs, c)[p..p + |xs[k]|] == j[q..q + |xs[k]|];
    }
  }

  /** The number of occurrences of `c` in `s`. */
  function Count(s: string, c: char): (n: nat)
    ensures n <= |s|
    ensures n == 0 <==> c !in s
  {
    if s == [] then 0 else (if s[0] == c then 1 else 0) + Count(s[1..], c)
  }
}
