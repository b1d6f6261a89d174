/** The text the command inserts: one line per missing field, in the order
    the fields were collected, each indented four spaces deeper than the
    enclosing literal (src/extension.ts `generateFieldsCode`, and the code
    block out/extension.js builds inline). */
module Render {
  import opened Text
  import opened Patterns
  import opened GoFields

  /** `${indent}    ${name}: ${default},` */
  function FieldLine(f: GoField, indent: string): string {
    indent + "    " + f.name + ": " + DefaultValue(f) + ","
  }

  /** The field lines, in field order. */
  function FieldLines(fields: seq<GoField>, indent: string): (r: seq<string>)
    ensures |r| == |fields| && forall k :: 0 <= k < |r| ==> r[k] == FieldLine(fields[k], indent)
  {
    seq(|fields|, k requires 0 <= k < |fields| => FieldLine(fields[k], indent))
  }

  /** `"\n" + lines.join("\n") + "\n"`. */
  function FieldsCode(fields: seq<GoField>, indent: string): string {
    "\n" + Join(FieldLines(fields, indent), '\n') + "\n"
  }

  /** The code block followed by the indentation that puts the closing brace
      back under the line that opened the literal. */
  function FieldsBlock(fields: seq<GoField>, indent: string): string {
    FieldsCode(fields, indent) + indent
  }

  /** A field that keeps generated code on its own line. */
  predicate SingleLineField(f: GoField) {
    '\n' !in f.name && '\n' !in f.fieldType
  }

  lemma DefaultSingleLine(f: GoField)
    requires '\n' !in f.fieldType
    ensures '\n' !in DefaultValue(f)
  {
  }

  lemma FieldLinesSingle(fields: seq<GoField>, indent: string)
    requires '\n' !in indent && forall k :: 0 <= k < |fields| ==> SingleLineField(fields[k])
    ensures forall k :: 0 <= k < |fields| ==> '\n' !in FieldLines(fields, indent)[k]
  {
    forall k | 0 <= k < |fields| ensures '\n' !in FieldLines(fields, indent)[k] {
      DefaultSingleLine(fields[k]);
    }
  }

  /** `"\n" + join + "\n" + last` is the join of the lines between an empty
      first line and `last`. */
  lemma WrappedJoin(xs: seq<string>, last: string, c: char)
    requires |xs| >= 1
    ensures [c] + Join(xs, c) + [c] + last == Join([""] + xs + [last], c)
  {
    JoinSnoc([""] + xs, last, c);
    JoinCons("", xs, c);
    assert "" + [c] + Join(xs, c) == [c] + Join(xs, c);
  }

  /** The generated code is an empty line, one line per field in order, and
      an empty line that the text after the insertion point continues. */
  lemma FieldsCodeLines(fields: seq<GoField>, indent: string)
    requires fields != []
    requires '\n' !in indent && forall k :: 0 <= k < |fields| ==> SingleLineField(fields[k])
    ensures Split(FieldsCode(fields, indent), '\n') == [""] + FieldLines(fields, indent) + [""]
  {
    var lines := FieldLines(fields, indent);
    FieldLinesSingle(fields, indent);
    WrappedJoin(lines, "", '\n');
    assert FieldsCode(fields, indent) == ['\n'] + Join(lines, '\n') + ['\n'] + "";
    SplitJoin([""] + lines + [""], '\n');
  }

  /** The block ends with a line holding only the enclosing indentation. */
  lemma FieldsBlockLines(fields: seq<GoField>, indent: string)
    requires fields != []
    requires '\n' !in indent && forall k :: 0 <= k < |fields| ==> SingleLineField(fields[k])
    ensures Split(FieldsBlock(fields, indent), '\n') == [""] + FieldLines(fields, indent) + [indent]
  {
    var lines := FieldLines(fields, indent);
    FieldLinesSingle(fields, indent);
    WrappedJoin(lines, indent, '\n');
    assert FieldsBlock(fields, indent) == ['\n'] + Join(lines, '\n') + ['\n'] + indent;
    SplitJoin([""] + lines + [indent], '\n');
  }

  /** A field name that the key pattern can find: it starts with a word character. */
  predicate KeyName(f: GoField) {
    f.name != [] && IsWordChar(f.name[0])
  }

  /** A name right after a blank and right before a colon is a key. */
  lemma KeyAfterBlank(d: string, i: nat, name: string)
    requires name != [] && IsWordChar(name[0])
    requires 0 < i && i + |name| < |d| && d[i - 1] == ' ' && d[i..i + |name|] == name
    requires d[i + |name|] == ':'
    ensures MentionsKey(d, name)
  {
    assert d[i] == name[0];
    SpanEndAt(d, i + |name|, i + |name|, IsSpace);
    assert KeyAt(d, name, i);
  }

  /** A generated line, wherever it sits in a text, is a key for its field. */
  lemma LineMentionsField(d: string, q: nat, name: string, indent: string, value: string, line: string)
    requires name != [] && IsWordChar(name[0])
    requires line == indent + "    " + name + ": " + value + ","
    requires q + |line| <= |d| && d[q..q + |line|] == line
    ensures MentionsKey(d, name)
  {
    var i := q + |indent| + 4;
    var n := |name|;
    assert forall j :: 0 <= j < |line| ==> d[q + j] == line[j] by {
      forall j | 0 <= j < |line| ensures d[q + j] == line[j] {
        assert d[q..q + |line|][j] == line[j];
      }
    }
    assert line[|indent| + 3] == ' ';
    assert line[|indent| + 4 + n] == ':';
    assert d[i..i + n] == name by {
      forall j | 0 <= j < n ensures d[i..i + n][j] == name[j] {
        assert line[|indent| + 4 + j] == name[j];
        assert d[q + (|indent| + 4 + j)] == line[|indent| + 4 + j];
      }
    }
    assert d[i - 1] == line[|indent| + 3];
    assert d[i + n] == line[|indent| + 4 + n];
    KeyAfterBlank(d, i, name);
  }

  /** A part of the middle of a text, found back by position. */
  lemma PartInText(d: string, before: string, j: string, rest: string)
    requires d == before + "\n" + j + rest
    ensures |before| + 1 + |j| <= |d| && d[|before| + 1..|before| + 1 + |j|] == j
  {
  }

  /** A part of a part of a text is a part of the text. */
  lemma SliceInSlice(d: string, q: nat, j: string, p: nat, part: string)
    requires q + |j| <= |d| && d[q..q + |j|] == j
    requires p + |part| <= |j| && j[p..p + |part|] == part
    ensures q + p + |part| <= |d| && d[q + p..q + p + |part|] == part
  {
    forall i | 0 <= i < |part| ensures d[q + p..q + p + |part|][i] == part[i] {
      assert d[q + p + i] == d[q..q + |j|][p + i];
      assert j[p + i] == j[p..p + |part|][i];
    }
  }

  /** The block, as a middle part between its first and last newline. */
  lemma BlockSplit(before: string, fields: seq<GoField>, indent: string, after: string, d: string)
    requires d == before + FieldsBlock(fields, indent) + after
    ensures d == before + "\n" + Join(FieldLines(fields, indent), '\n') + ("\n" + indent + after)
  {
    Regroup(before, "\n", Join(FieldLines(fields, indent), '\n'), indent, after);
  }

  lemma Regroup(a: string, nl: string, j: string, indent: string, b: string)
    ensures a + (nl + j + nl + indent) + b == a + nl + j + (nl + indent + b)
  {
  }

  /** Text holding the generated block, with anything before and after it,
      has a key for every field of the block: a second run finds them all
      present. */
  lemma BlockMentionsFields(before: string, fields: seq<GoField>, indent: string, after: string, d: string)
    requires forall k :: 0 <= k < |fields| ==> KeyName(fields[k])
    requires d == before + FieldsBlock(fields, indent) + after
    ensures forall k :: 0 <= k < |fields| ==> MentionsKey(d, fields[k].name)
  {
    var lines := FieldLines(fields, indent);
    BlockSplit(before, fields, indent, after, d);
    PartInText(d, before, Join(lines, '\n'), "\n" + indent + after);
    forall k | 0 <= k < |fields| ensures MentionsKey(d, fields[k].name) {
      LineInBlock(d, |before| + 1, lines, k, fields[k], indent);
    }
  }

  /** The `k`-th line of the block, written for field `f`, puts its key in `d`. */
  lemma LineInBlock(d: string, q: nat, lines: seq<string>, k: nat, f: GoField, indent: string)
    requires KeyName(f) && k < |lines| && lines[k] == FieldLine(f, indent)
    requires q + |Join(lines, '\n')| <= |d| && d[q..q + |Join(lines, '\n')|] == Join(lines, '\n')
    ensures MentionsKey(d, f.name)
  {
    var p := JoinHasPart(lines, '\n', k);
    SliceInSlice(d, q, Join(lines, '\n'), p, lines[k]);
    LineMentionsField(d, q + p, f.name, indent, DefaultValue(f), lines[k]);
  }
}
