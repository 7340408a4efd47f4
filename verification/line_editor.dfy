/** The line-oriented YAML scalar editor (guoba/utils.js). Writing replaces the first `KEY:` line
    of a file and never adds a line to an existing file; reading takes the parsed document's value
    and, when the text does not parse, scans the text for the first `KEY:` line. A file is its text;
    `None` is a file that does not exist. */
module LineEditor {
  import opened Wrappers
  import opened Text
  import opened Values

  // ---------------------------------------------------------------------------------------------
  // Formatting

  /** A character of the class `[\s:#"]`. */
  predicate QuoteTrigger(c: char) {
    IsSpace(c) || c == ':' || c == '#' || c == '"'
  }

  /** `needsQuotes(str)`: the string holds white space, `:`, `#` or `"`. */
  function NeedsQuotes(s: string): (b: bool)
    ensures b <==> exists i | 0 <= i < |s| :: QuoteTrigger(s[i])
  {
    if |s| == 0 then false
    else if QuoteTrigger(s[0]) then true
    else
      var b := NeedsQuotes(s[1..]);
      assert forall i | 1 <= i < |s| :: s[i] == s[1..][i - 1];
      b
  }

  /** `str.replace(/"/g, '\\"')`: every double quote gets a backslash in front; backslashes already
      in the text are left as they are. */
  function Escape(s: string): (r: string)
    ensures |r| >= |s|
    ensures '"' !in s ==> r == s
  {
    if |s| == 0 then ""
    else (if s[0] == '"' then "\\\"" else [s[0]]) + Escape(s[1..])
  }

  /** Drops the backslash in front of each double quote, reading left to right. */
  function Unescape(s: string): (r: string)
  {
    if |s| == 0 then ""
    else if |s| >= 2 && s[0] == '\\' && s[1] == '"' then "\"" + Unescape(s[2..])
    else [s[0]] + Unescape(s[1..])
  }

  /** Undoing the escaping gives the text back, so no two strings are quoted alike. */
  lemma {:induction false} EscapeRoundTrip(s: string)
    ensures Unescape(Escape(s)) == s
  {
    if |s| > 0 {
      EscapeRoundTrip(s[1..]);
      var e := Escape(s[1..]);
      if s[0] == '"' {
        assert Escape(s) == "\\\"" + e;
        assert (Escape(s))[2..] == e;
      } else if s[0] == '\\' {
        // The character after an original backslash is never a quote: a quote would carry its own
        // backslash first.
        assert |e| > 0 ==> e[0] != '"' by {
          if |s| > 1 {
            EscapeHead(s[1..]);
          }
        }
        assert Escape(s) == [s[0]] + e;
        assert (Escape(s))[1..] == e;
      } else {
        assert Escape(s) == [s[0]] + e;
        assert (Escape(s))[1..] == e;
      }
    }
  }

  lemma EscapeHead(s: string)
    requires |s| > 0
    ensures Escape(s)[0] == if s[0] == '"' then '\\' else s[0]
  {
  }

  /** Inside the quotes, every double quote comes right after a backslash. */
  lemma {:induction false} EscapedQuotesGuarded(s: string)
    ensures forall i | 0 <= i < |Escape(s)| && Escape(s)[i] == '"' :: i > 0 && Escape(s)[i - 1] == '\\'
  {
    if |s| > 0 {
      EscapedQuotesGuarded(s[1..]);
      var h := if s[0] == '"' then "\\\"" else [s[0]];
      var e := Escape(s[1..]);
      assert Escape(s) == h + e;
      if |s| > 1 { EscapeHead(s[1..]); }
      assert |e| > 0 ==> e[0] != '"';
      forall i | 0 <= i < |Escape(s)| && Escape(s)[i] == '"' ensures i > 0 && Escape(s)[i - 1] == '\\' {
        if i >= |h| {
          assert e[i - |h|] == '"';
          assert Escape(s)[i - 1] == e[i - |h| - 1];
        }
      }
    }
  }

  /** `formatValueForYaml(value)`: booleans and integers print as YAML plain scalars, a string is
      quoted only when it needs to be, and any other value (`null`, arrays, mappings) prints as
      nothing. */
  function FormatValue(v: Value): (r: string)
    ensures v.Bool? ==> r == (if v.b then "true" else "false")
    ensures v.Num? ==> r == IntToDec(v.n)
    ensures v.Str? && !NeedsQuotes(v.s) ==> r == v.s
    ensures v.Str? && NeedsQuotes(v.s) ==> |r| >= 2 && r[0] == '"' && r[|r| - 1] == '"' && Unescape(r[1..|r| - 1]) == v.s
    ensures v.Null? || v.Arr? || v.Obj? ==> r == ""
  {
    match v
    case Bool(b) => if b then "true" else "false"
    case Num(n) => IntToDec(n)
    case Str(s) =>
      if NeedsQuotes(s) then
        var r := "\"" + Escape(s) + "\"";
        assert r[1..|r| - 1] == Escape(s);
        EscapeRoundTrip(s);
        r
      else s
    case _ => ""
  }

  /** Two different strings never format to the same text. */
  lemma FormatStringsInjective(s: string, t: string)
    requires FormatValue(Str(s)) == FormatValue(Str(t))
    ensures s == t
  {
    var f := FormatValue(Str(s));
    if NeedsQuotes(s) && !NeedsQuotes(t) {
      // An unquoted string has no `"`, but a quoted one starts with it.
      assert f[0] == '"' && QuoteTrigger(t[0]);
    } else if !NeedsQuotes(s) && NeedsQuotes(t) {
      assert f[0] == '"' && QuoteTrigger(s[0]);
    }
  }

  // ---------------------------------------------------------------------------------------------
  // Writing

  /** `^(\s*)KEY:(\s|#|$)` matched with the key's `:` at `n`: the first `n` characters are white
      space, and the colon is followed by white space, a `#` or the end of the line. */
  predicate KeyLineAt(line: string, key: string, n: nat) {
    n <= WsRun(line, 0) && n + |key| + 1 <= |line| && line[n..n + |key| + 1] == key + ":" &&
    (n + |key| + 1 == |line| || IsSpace(line[n + |key| + 1]) || line[n + |key| + 1] == '#')
  }

  /** The line-selection test of the writer (the key is matched as literal text). */
  predicate IsKeyLine(line: string, key: string) {
    exists n | 0 <= n <= |line| :: KeyLineAt(line, key, n)
  }

  /** Some line is selected by the writer's test. */
  predicate HasKeyLine(lines: seq<string>, key: string) {
    exists j | 0 <= j < |lines| :: IsKeyLine(lines[j], key)
  }

  /** `line.match(/#(.*)$/)[1]`: the text after the first `#` that is followed by no line terminator
      up to the end of the line. */
  function Comment(s: string): (r: Option<string>)
    ensures r.Some? ==> exists i | 0 <= i < |s| :: s[i] == '#' && r.value == s[i + 1..]
    ensures r.Some? ==> forall j | 0 <= j < |r.value| :: !IsLineTerminator(r.value[j])
    ensures '#' !in s ==> r.None?
  {
    if |s| == 0 then None
    else if s[0] == '#' && forall j | 1 <= j < |s| :: !IsLineTerminator(s[j]) then
      assert forall j | 0 <= j < |s[1..]| :: s[1..][j] == s[j + 1];
      Some(s[1..])
    else
      var r := Comment(s[1..]);
      HashInTail(s, r);
      r
  }

  lemma HashInTail(s: string, r: Option<string>)
    requires |s| > 0
    requires r.Some? ==> exists i | 0 <= i < |s[1..]| :: s[1..][i] == '#' && r.value == s[1..][i + 1..]
    ensures r.Some? ==> exists i | 0 <= i < |s| :: s[i] == '#' && r.value == s[i + 1..]
  {
    if r.Some? {
      var i :| 0 <= i < |s[1..]| && s[1..][i] == '#' && r.value == s[1..][i + 1..];
      assert s[i + 1] == '#' && r.value == s[i + 2..];
    }
  }

  /** A `#` at `i` from which `#(.*)$` can match: no line terminator follows it up to the end. */
  predicate CommentAt(s: string, i: int) {
    0 <= i < |s| && s[i] == '#' && forall j | i < j < |s| :: !IsLineTerminator(s[j])
  }

  /** `Comment` finds a comment exactly when some `#` can start the match, and then it is the text
      after the leftmost such `#`, as a regular expression scanning from the left takes it. */
  lemma {:induction false} CommentLeftmost(s: string)
    ensures Comment(s).Some? <==> exists i | 0 <= i < |s| :: CommentAt(s, i)
    ensures Comment(s).Some? ==>
      exists i | 0 <= i < |s| :: CommentAt(s, i) && Comment(s).value == s[i + 1..] &&
        forall k | 0 <= k < i :: !CommentAt(s, k)
  {
    if |s| > 0 {
      if s[0] == '#' && forall j | 1 <= j < |s| :: !IsLineTerminator(s[j]) {
        assert CommentAt(s, 0);
      } else {
        var t := s[1..];
        CommentLeftmost(t);
        assert Comment(s) == Comment(t);
        assert !CommentAt(s, 0);
        forall i | 0 <= i < |t|
          ensures CommentAt(s, i + 1) <==> CommentAt(t, i)
        {
          CommentAtShift(s, i);
        }
        if Comment(s).Some? {
          var i :| 0 <= i < |t| && CommentAt(t, i) && Comment(t).value == t[i + 1..] &&
            forall k | 0 <= k < i :: !CommentAt(t, k);
          assert t[i + 1..] == s[i + 2..];
          forall k | 0 <= k < i + 1
            ensures !CommentAt(s, k)
          {
            if k > 0 {
              assert !CommentAt(t, k - 1);
              CommentAtShift(s, k - 1);
            }
          }
          assert CommentAt(s, i + 1);
        } else {
          forall i | 0 <= i < |s|
            ensures !CommentAt(s, i)
          {
            if i > 0 { CommentAtShift(s, i - 1); }
          }
        }
      }
    }
  }

  lemma CommentAtShift(s: string, i: nat)
    requires i + 1 < |s|
    ensures CommentAt(s, i + 1) <==> CommentAt(s[1..], i)
  {
    assert forall j | i < j < |s[1..]| :: s[1..][j] == s[j + 1];
  }

  /** Text without a `#` in front of the comment does not change which comment is found. */
  lemma {:induction false} CommentSkip(a: string, b: string)
    requires '#' !in a
    ensures Comment(a + b) == Comment(b)
  {
    if |a| > 0 {
      assert (a + b)[0] == a[0];
      assert (a + b)[1..] == a[1..] + b;
      CommentSkip(a[1..], b);
    } else {
      assert a + b == b;
    }
  }

  /** The replacement for a selected line: its indentation, `KEY: value`, and the old comment unless
      comments are to be removed. */
  function NewLine(line: string, key: string, v: Value, removeComments: bool): (r: string)
    ensures StartsWith(r, line[..WsRun(line, 0)] + key + ": " + FormatValue(v))
    ensures removeComments || Comment(line).None? ==> r == line[..WsRun(line, 0)] + key + ": " + FormatValue(v)
    ensures !removeComments && Comment(line).Some? ==>
      r == line[..WsRun(line, 0)] + key + ": " + FormatValue(v) + " #" + Comment(line).value
  {
    var head := line[..WsRun(line, 0)] + key + ": " + FormatValue(v);
    var comment := if !removeComments && Comment(line).Some? then " #" + Comment(line).value else "";
    assert (head + comment)[..|head|] == head;
    head + comment
  }

  /** The position of the first line the writer selects. */
  function FirstKeyLine(lines: seq<string>, key: string): (i: nat)
    requires HasKeyLine(lines, key)
    ensures i < |lines| && IsKeyLine(lines[i], key)
    ensures forall j | 0 <= j < i :: !IsKeyLine(lines[j], key)
  {
    if IsKeyLine(lines[0], key) then 0
    else
      var j :| 0 <= j < |lines| && IsKeyLine(lines[j], key);
      assert IsKeyLine(lines[1..][j - 1], key);
      var i := FirstKeyLine(lines[1..], key);
      assert forall j | 1 <= j < i + 1 :: lines[j] == lines[1..][j - 1];
      i + 1
  }

  datatype Rewrite = Rewrite(lines: seq<string>, found: bool)

  /** The loop over the lines: the first selected line is replaced, every other line is kept. */
  function RewriteFirst(lines: seq<string>, key: string, v: Value, removeComments: bool): (r: Rewrite)
    ensures |r.lines| == |lines|
    ensures r.found <==> HasKeyLine(lines, key)
    ensures !r.found ==> r.lines == lines
  {
    if |lines| == 0 then Rewrite([], false)
    else if IsKeyLine(lines[0], key) then
      Rewrite([NewLine(lines[0], key, v, removeComments)] + lines[1..], true)
    else
      var rest := RewriteFirst(lines[1..], key, v, removeComments);
      assert forall j | 1 <= j < |lines| :: lines[j] == lines[1..][j - 1];
      Rewrite([lines[0]] + rest.lines, rest.found)
  }

  /** The line the loop replaces is the first selected one. */
  lemma {:induction false} RewriteFirstLine(lines: seq<string>, key: string, v: Value, removeComments: bool)
    requires HasKeyLine(lines, key)
    ensures var i := FirstKeyLine(lines, key);
            RewriteFirst(lines, key, v, removeComments).lines == lines[i := NewLine(lines[i], key, v, removeComments)]
  {
    if IsKeyLine(lines[0], key) {
      ReplaceHead(lines, NewLine(lines[0], key, v, removeComments));
    } else {
      FirstKeyLineTail(lines, key);
      RewriteFirstLine(lines[1..], key, v, removeComments);
      var i := FirstKeyLine(lines, key);
      ReplaceCons(lines, i - 1, NewLine(lines[i], key, v, removeComments));
      assert RewriteFirst(lines, key, v, removeComments).lines ==
        [lines[0]] + RewriteFirst(lines[1..], key, v, removeComments).lines;
    }
  }

  lemma ReplaceHead(lines: seq<string>, x: string)
    requires 0 < |lines|
    ensures [x] + lines[1..] == lines[0 := x]
  {
  }

  /** Past a first line that is not selected, the first selected line is the tail's, one on. */
  lemma FirstKeyLineTail(lines: seq<string>, key: string)
    requires HasKeyLine(lines, key)
    requires !IsKeyLine(lines[0], key)
    ensures HasKeyLine(lines[1..], key)
    ensures FirstKeyLine(lines, key) == FirstKeyLine(lines[1..], key) + 1
    ensures lines[FirstKeyLine(lines, key)] == lines[1..][FirstKeyLine(lines[1..], key)]
  {
    var j :| 0 <= j < |lines| && IsKeyLine(lines[j], key);
    assert IsKeyLine(lines[1..][j - 1], key);
  }

  /** Replacing an element of the tail is replacing the next one of the whole. */
  lemma ReplaceCons(lines: seq<string>, i: nat, x: string)
    requires 0 < |lines| && i < |lines| - 1
    ensures [lines[0]] + lines[1..][i := x] == lines[i + 1 := x]
  {
  }

  /** The first line of a file the writer creates. */
  const Header: string := "# 配置文件（请勿修改行数和顺序）"

  /** What a call of the writer leaves behind: its answer, the file, and whether it wrote the file. */
  datatype Written = Written(ok: bool, file: Option<string>, wrote: bool)

  /** `writeYamlConfig(filePath, key, value, removeComments)`. `fails` stands for the file system
      throwing (creating the directory, reading or writing the file): the answer is then `false` and
      the file is left as it was. Otherwise a missing file is created with a header line and the key,
      and an existing one is handled by `RewriteFile`. */
  function WriteYamlConfig(file: Option<string>, key: string, v: Value, removeComments: bool, fails: bool): (r: Written)
    ensures fails ==> r == Written(false, file, false)
    ensures !fails ==> r.file.Some?
    ensures !fails && file.None? ==> r.ok && r.wrote && r.file.value == Header + "\n" + key + ": " + FormatValue(v) + "\n"
    ensures !fails && file.Some? ==>
      (r.ok <==> HasKeyLine(Split(file.value, '\n'), key))
    ensures !fails && file.Some? && !r.ok ==> r.file == file && !r.wrote
    ensures !fails && file.Some? && r.ok ==>
      var lines := Split(file.value, '\n');
      var i := FirstKeyLine(lines, key);
      r.file.value == Join(lines[i := NewLine(lines[i], key, v, removeComments)], '\n')
    ensures r.wrote <==> r.file != file
  {
    if fails then Written(false, file, false)
    else
      match file
      case None => Written(true, Some(Header + "\n" + key + ": " + FormatValue(v) + "\n"), true)
      case Some(content) => RewriteFile(content, key, v, removeComments)
  }

  /** An existing file: the first `KEY:` line is rewritten, and a file without one is left alone with
      the answer `false`. The file is written only when its text changes. */
  function RewriteFile(content: string, key: string, v: Value, removeComments: bool): (r: Written)
    ensures r.file.Some?
    ensures r.ok <==> HasKeyLine(Split(content, '\n'), key)
    ensures !r.ok ==> r.file == Some(content) && !r.wrote
    ensures r.ok ==>
      var lines := Split(content, '\n');
      var i := FirstKeyLine(lines, key);
      r.file.value == Join(lines[i := NewLine(lines[i], key, v, removeComments)], '\n')
    ensures r.wrote <==> r.file != Some(content)
  {
    var lines := Split(content, '\n');
    var rw := RewriteFirst(lines, key, v, removeComments);
    if !rw.found then Written(false, Some(content), false)
    else
      var i := FirstKeyLine(lines, key);
      assert IsKeyLine(lines[i], key);
      RewriteFirstLine(lines, key, v, removeComments);
      var updated := Join(rw.lines, '\n');
      Written(true, Some(updated), updated != content)
  }

  /** A rewrite keeps the line structure: the same number of lines, all but the selected one verbatim. */
  lemma {:induction false} WriteKeepsLines(content: string, key: string, v: Value, removeComments: bool)
    requires WriteYamlConfig(Some(content), key, v, removeComments, false).ok
    requires '\n' !in key && '\n' !in FormatValue(v)
    ensures var lines := Split(content, '\n');
            var i := FirstKeyLine(lines, key);
            var after := Split(WriteYamlConfig(Some(content), key, v, removeComments, false).file.value, '\n');
            |after| == |lines| && after[i] == NewLine(lines[i], key, v, removeComments) &&
            forall j | 0 <= j < |lines| && j != i :: after[j] == lines[j]
  {
    WrittenLines(content, key, v, removeComments);
  }

  /** Split at line breaks, the rewritten file gives back the lines with the selected one replaced. */
  lemma {:induction false} WrittenLines(content: string, key: string, v: Value, removeComments: bool)
    requires WriteYamlConfig(Some(content), key, v, removeComments, false).ok
    requires '\n' !in key && '\n' !in FormatValue(v)
    ensures var lines := Split(content, '\n');
            var i := FirstKeyLine(lines, key);
            Split(WriteYamlConfig(Some(content), key, v, removeComments, false).file.value, '\n') ==
              lines[i := NewLine(lines[i], key, v, removeComments)]
  {
    var lines := Split(content, '\n');
    var i := FirstKeyLine(lines, key);
    var nl := NewLine(lines[i], key, v, removeComments);
    NewLineSingle(lines[i], key, v, removeComments);
    SplitJoin(lines[i := nl], '\n');
  }

  /** The replacement is one line when the key and the value are. */
  lemma NewLineSingle(line: string, key: string, v: Value, removeComments: bool)
    requires '\n' !in line && '\n' !in key && '\n' !in FormatValue(v)
    ensures '\n' !in NewLine(line, key, v, removeComments)
  {
    var w := WsRun(line, 0);
    var head := line[..w] + key + ": " + FormatValue(v);
    assert '\n' !in line[..w] by {
      assert forall c | c in line[..w] :: c in line;
    }
    assert '\n' !in head;
    if !removeComments && Comment(line).Some? {
      var i :| 0 <= i < |line| && line[i] == '#' && Comment(line).value == line[i + 1..];
      assert '\n' !in line[i + 1..] by {
        assert forall c | c in line[i + 1..] :: c in line;
      }
      assert NewLine(line, key, v, removeComments) == head + (" #" + line[i + 1..]);
    } else {
      assert NewLine(line, key, v, removeComments) == head;
    }
  }

  /** Writing the same value twice: the second call finds its own line and changes nothing, so it
      does not write (the formatted value must not hold a `#`, which would be taken for the start of
      the comment). */
  lemma {:induction false} WriteTwiceNoOp(content: string, key: string, v: Value, removeComments: bool)
    requires WriteYamlConfig(Some(content), key, v, removeComments, false).ok
    requires '\n' !in key && '\n' !in FormatValue(v)
    requires '#' !in key && '#' !in FormatValue(v)
    requires |key| > 0 ==> !IsSpace(key[0])
    ensures var once := WriteYamlConfig(Some(content), key, v, removeComments, false);
            var twice := WriteYamlConfig(once.file, key, v, removeComments, false);
            twice.ok && !twice.wrote && twice.file == once.file
  {
    var lines := Split(content, '\n');
    var i := FirstKeyLine(lines, key);
    var line := lines[i];
    var nl := NewLine(line, key, v, removeComments);
    var once := WriteYamlConfig(Some(content), key, v, removeComments, false);
    WrittenLines(content, key, v, removeComments);
    NewLineFixed(line, key, v, removeComments);
    FirstKeyLineKept(lines, key, nl);
    WriteFixedPoint(once.file.value, key, v, removeComments);
  }

  /** A file whose first selected line already rewrites to itself is left alone. */
  lemma {:induction false} WriteFixedPoint(content: string, key: string, v: Value, removeComments: bool)
    requires HasKeyLine(Split(content, '\n'), key)
    requires var lines := Split(content, '\n');
             var i := FirstKeyLine(lines, key);
             NewLine(lines[i], key, v, removeComments) == lines[i]
    ensures WriteYamlConfig(Some(content), key, v, removeComments, false) == Written(true, Some(content), false)
  {
    var lines := Split(content, '\n');
    var i := FirstKeyLine(lines, key);
    UpdateSame(lines, i, NewLine(lines[i], key, v, removeComments));
    JoinSplit(content, '\n');
  }

  lemma UpdateSame(lines: seq<string>, i: nat, x: string)
    requires i < |lines| && lines[i] == x
    ensures lines[i := x] == lines
  {
  }

  /** Replacing the first selected line by another selected line keeps it the first. */
  lemma FirstKeyLineKept(lines: seq<string>, key: string, nl: string)
    requires HasKeyLine(lines, key)
    requires IsKeyLine(nl, key)
    ensures var i := FirstKeyLine(lines, key);
            IsKeyLine(lines[i := nl][i], key) && FirstKeyLine(lines[i := nl], key) == i
  {
    var i := FirstKeyLine(lines, key);
    var lines' := lines[i := nl];
    assert IsKeyLine(lines'[i], key);
    assert forall j | 0 <= j < i :: lines'[j] == lines[j];
  }

  /** A rewritten line is selected again and rewrites to itself. */
  lemma NewLineFixed(line: string, key: string, v: Value, removeComments: bool)
    requires '#' !in key && '#' !in FormatValue(v)
    requires |key| > 0 ==> !IsSpace(key[0])
    ensures var nl := NewLine(line, key, v, removeComments);
            IsKeyLine(nl, key) && NewLine(nl, key, v, removeComments) == nl
  {
    var w := WsRun(line, 0);
    var nl := NewLine(line, key, v, removeComments);
    var comment := if !removeComments && Comment(line).Some? then " #" + Comment(line).value else "";
    var rest := FormatValue(v) + comment;
    Regroup(line[..w], key, FormatValue(v), comment);
    NewLineIndent(line, key, rest);
    NewLineComment(line, key, v, comment);
    KeyLineOf(line[..w], key, rest);
  }

  lemma Regroup(indent: string, key: string, value: string, comment: string)
    ensures indent + key + ": " + value + comment == indent + (key + ": " + (value + comment))
    ensures indent + key + ": " + value + comment == indent + (key + ": " + value) + comment
  {
  }

  /** A line made of an indentation, `KEY: ` and a rest has its key at the end of the indentation. */
  lemma {:induction false} KeyLineOf(indent: string, key: string, rest: string)
    requires WsRun(indent + (key + ": " + rest), 0) == |indent|
    ensures KeyLineAt(indent + (key + ": " + rest), key, |indent|)
  {
    KeyTextOf(indent, key, rest);
  }

  lemma KeyTextOf(indent: string, key: string, rest: string)
    ensures var s := indent + (key + ": " + rest);
            s[|indent|..|indent| + |key| + 1] == key + ":" && s[|indent| + |key| + 1] == ' '
  {
    var s := indent + (key + ": " + rest);
    var n := |indent|;
    assert s[n..] == key + ": " + rest;
    assert (key + ": " + rest)[..|key| + 1] == key + ":";
  }

  /** The indentation of a rewritten line is the indentation it was given. */
  lemma NewLineIndent(line: string, key: string, rest: string)
    requires |key| > 0 ==> !IsSpace(key[0])
    ensures var w := WsRun(line, 0);
            WsRun(line[..w] + (key + ": " + rest), 0) == w
  {
    var w := WsRun(line, 0);
    var nl := line[..w] + (key + ": " + rest);
    assert forall j | 0 <= j < w :: nl[j] == line[j];
    assert nl[w] == (key + ": ")[0];
    WsRunOfPrefixed(nl, w);
  }

  /** The comment found in a rewritten line is the one it was given. */
  lemma {:induction false} NewLineComment(line: string, key: string, v: Value, comment: string)
    requires '#' !in key && '#' !in FormatValue(v)
    requires comment == "" || (Comment(line).Some? && comment == " #" + Comment(line).value)
    ensures var w := WsRun(line, 0);
            Comment(line[..w] + (key + ": " + FormatValue(v)) + comment) ==
              if comment == "" then None else Comment(line)
  {
    var w := WsRun(line, 0);
    HeadNoHash(line, key, v);
    CommentSkip(line[..w] + (key + ": " + FormatValue(v)), comment);
    if comment != "" {
      CommentAfterSpace(Comment(line).value);
    }
  }

  /** The part of a rewritten line before its comment holds no `#`. */
  lemma HeadNoHash(line: string, key: string, v: Value)
    requires '#' !in key && '#' !in FormatValue(v)
    ensures '#' !in line[..WsRun(line, 0)] + (key + ": " + FormatValue(v))
  {
    var indent := line[..WsRun(line, 0)];
    var body := key + ": " + FormatValue(v);
    assert '#' !in indent by {
      forall j | 0 <= j < |indent| ensures indent[j] != '#' { assert IsSpace(line[j]); }
    }
    assert forall x | x in indent + body :: x in indent || x in body;
  }

  /** ` #` followed by a text without line terminators is a comment holding that text. */
  lemma CommentAfterSpace(t: string)
    requires forall j | 0 <= j < |t| :: !IsLineTerminator(t[j])
    ensures Comment(" #" + t) == Some(t)
  {
    assert " #" + t == [' '] + ("#" + t);
    CommentSkip([' '], "#" + t);
    assert ("#" + t)[1..] == t;
    assert forall j | 1 <= j < |"#" + t| :: ("#" + t)[j] == t[j - 1];
  }

  // ---------------------------------------------------------------------------------------------
  // Reading

  /** `^` in multiline mode: the start of the text or right after a line terminator. */
  predicate LineStart(c: string, p: nat)
    requires p <= |c|
  {
    p == 0 || IsLineTerminator(c[p - 1])
  }

  /** `KEY:` starts at `i`. */
  predicate KeyColonAt(c: string, i: nat, key: string)
    requires i <= |c|
  {
    StartsWith(c[i..], key + ":")
  }

  /** `\s*KEY:` from `p`, where `p + n` is as far as the greedy `\s*` may reach: it gives back white
      space until `KEY:` follows. The answer is the position after the colon. */
  function KeyAfter(c: string, p: nat, key: string, n: nat): (q: Option<nat>)
    requires p + n <= |c|
    ensures q.Some? ==> exists i | p <= i <= p + n :: KeyColonAt(c, i, key) && q.value == i + |key| + 1
    ensures q.Some? ==> q.value <= |c|
    ensures q.None? ==> forall i | p <= i <= p + n :: !KeyColonAt(c, i, key)
  {
    if KeyColonAt(c, p + n, key) then Some(p + n + |key| + 1)
    else if n == 0 then None
    else KeyAfter(c, p, key, n - 1)
  }

  /** `(\s*#|\s*$)` at `t` in multiline mode: white space and then a `#`, a line terminator (itself
      white space) or the end of the text. */
  predicate ValueEnd(c: string, t: nat)
    requires t <= |c|
  {
    var w := WsRun(c, t);
    t + w == |c| || c[t + w] == '#' || exists u | t <= u < t + w :: IsLineTerminator(c[u])
  }

  /** The value can always end at the end of its line. */
  lemma LineEndEnds(c: string, t: nat)
    requires t <= |c|
    ensures t == |c| || IsLineTerminator(c[t]) ==> ValueEnd(c, t)
  {
  }

  /** The lazy `(.*?)`: the first position from `t` on where the value may end. It ends at the
      latest at the line's end, since `.` does not match a line terminator. */
  function LazyEnd(c: string, t: nat): (e: nat)
    requires t <= |c|
    ensures t <= e <= |c| && ValueEnd(c, e)
    ensures forall u | t <= u < e :: !ValueEnd(c, u)
    ensures forall u | t <= u < e :: !IsLineTerminator(c[u])
    decreases |c| - t
  {
    LineEndEnds(c, t);
    if ValueEnd(c, t) then t
    else LazyEnd(c, t + 1)
  }

  /** Where `\s*KEY:` matches from `p`, if `p` starts a line: the position after the colon. */
  function KeyLineFrom(c: string, key: string, p: nat): Option<nat>
    requires p <= |c|
  {
    if LineStart(c, p) then KeyAfter(c, p, key, WsRun(c, p)) else None
  }

  /** The captured value once `KEY:` has been matched up to `q`: the greedy `\s*` takes all the white
      space (across line breaks), then the value runs to where it may end. */
  function CapturedFrom(c: string, q: nat): (g: string)
    requires q <= |c|
    ensures forall j | 0 <= j < |g| :: !IsLineTerminator(g[j])
  {
    var s := q + WsRun(c, q);
    var e := LazyEnd(c, s);
    var g := c[s..e];
    assert forall j | 0 <= j < |g| :: g[j] == c[s + j];
    g
  }

  /** `content.match(/^\s*KEY:\s*(.*?)(\s*#|\s*$)/m)[1]`, searched from `p`: the captured value of the
      leftmost match, or `None` when no line start is followed by `KEY:`. */
  function FallbackMatch(c: string, key: string, p: nat): (g: Option<string>)
    requires p <= |c|
    ensures g.Some? <==> exists i | p <= i <= |c| :: KeyLineFrom(c, key, i).Some?
    decreases |c| - p
  {
    match KeyLineFrom(c, key, p)
    case Some(q) => Some(CapturedFrom(c, q))
    case None => if p == |c| then None else FallbackMatch(c, key, p + 1)
  }

  /** `KEY:` matches from the line start `i`, capturing `v`, and from no position from `p` up to `i`. */
  predicate LeftmostKeyLine(c: string, key: string, p: nat, i: nat, v: string)
    requires p <= i <= |c|
  {
    KeyLineFrom(c, key, i).Some? && v == CapturedFrom(c, KeyLineFrom(c, key, i).value) &&
    forall i' | p <= i' < i :: KeyLineFrom(c, key, i').None?
  }

  /** The leftmost line start followed by `\s*KEY:` wins, and the value is what is captured after
      its colon. */
  lemma {:induction false} FallbackMatchLeftmost(c: string, key: string, p: nat)
    requires p <= |c|
    ensures var g := FallbackMatch(c, key, p);
      g.Some? ==> exists i | p <= i <= |c| :: LeftmostKeyLine(c, key, p, i, g.value)
    decreases |c| - p
  {
    var g := FallbackMatch(c, key, p);
    if g.Some? {
      if KeyLineFrom(c, key, p).Some? {
        assert LeftmostKeyLine(c, key, p, p, g.value);
      } else {
        assert g == FallbackMatch(c, key, p + 1);
        FallbackMatchLeftmost(c, key, p + 1);
        var i :| p + 1 <= i <= |c| && LeftmostKeyLine(c, key, p + 1, i, g.value);
        KeyLineShift(c, key, p, i, g.value);
      }
    }
  }

  lemma KeyLineShift(c: string, key: string, p: nat, i: nat, v: string)
    requires p < i <= |c| && KeyLineFrom(c, key, p).None? && LeftmostKeyLine(c, key, p + 1, i, v)
    ensures LeftmostKeyLine(c, key, p, i, v)
  {
    assert forall i' | p + 1 <= i' < i :: KeyLineFrom(c, key, i').None?;
    forall i' | p <= i' < i
      ensures KeyLineFrom(c, key, i').None?
    {
      if i' != p {
        assert p + 1 <= i' < i;
      }
    }
  }

  /** The value text of the fallback mapped to a value: `true`, `false`, an integer, a quoted string
      without its quotes, or the text itself. */
  function ClassifyRaw(raw: string): (v: Value)
    ensures raw == "true" ==> v == Bool(true)
    ensures raw == "false" ==> v == Bool(false)
    ensures IsIntegerText(raw) ==> v == Num(IntegerValue(raw))
    ensures v.Str? && StartsWith(raw, "\"") && EndsWith(raw, "\"") && !IsIntegerText(raw) ==>
      v.s == if |raw| == 1 then "" else raw[1..|raw| - 1]
    ensures v.Null? || v.Arr? || v.Obj? ==> false
  {
    if raw == "true" then Bool(true)
    else if raw == "false" then Bool(false)
    else if IsIntegerText(raw) then Num(IntegerValue(raw))
    else if StartsWith(raw, "\"") && EndsWith(raw, "\"") then Str(if |raw| == 1 then "" else raw[1..|raw| - 1])
    else Str(raw)
  }

  /** The fallback reads back what the formatter wrote for booleans, integers and strings that need
      no quotes, and for quoted strings without an inner `"`. */
  lemma ClassifyFormatted(v: Value)
    requires v.Bool? || v.Num? || v.Str?
    requires v.Str? ==> v.s != "true" && v.s != "false" && !IsIntegerText(v.s) && v.s != "" && '"' !in v.s
    ensures ClassifyRaw(FormatValue(v)) == v
  {
    match v
    case Bool(b) =>
    case Num(n) => IntegerTextRoundTrip(n);
    case Str(s) =>
      if NeedsQuotes(s) {
        ClassifyQuoted(s);
      } else {
        ClassifyBare(s);
      }
  }

  lemma ClassifyQuoted(s: string)
    requires NeedsQuotes(s) && '"' !in s
    ensures ClassifyRaw(FormatValue(Str(s))) == Str(s)
  {
    var f := FormatValue(Str(s));
    assert f == "\"" + s + "\"";
    ClassifyQuotedRaw(f);
    assert f[1..|f| - 1] == s;
  }

  /** A text between double quotes reads as the string inside them. */
  lemma ClassifyQuotedRaw(raw: string)
    requires |raw| >= 2 && raw[0] == '"' && raw[|raw| - 1] == '"'
    ensures ClassifyRaw(raw) == Str(raw[1..|raw| - 1])
  {
    assert !IsIntegerText(raw) by { assert !IsDigit(raw[0]) && !IsDigit(raw[|raw| - 1]); }
    assert StartsWith(raw, "\"") && EndsWith(raw, "\"");
  }

  lemma ClassifyBare(s: string)
    requires !NeedsQuotes(s)
    requires s != "true" && s != "false" && !IsIntegerText(s) && s != "" && '"' !in s
    ensures ClassifyRaw(FormatValue(Str(s))) == Str(s)
  {
    assert !StartsWith(s, "\"") by { assert s[0] != '"'; }
  }

  /** `readYamlConfig(filePath, key, defaultValue)`. `parsed` is what `yaml.parse` makes of the text:
      a tree, or the failure that sends the reader to the line scan. A missing or empty file gives
      the default; so does a `null` or missing value. */
  function ReadYamlConfig(file: Option<string>, parsed: Result<Value, Failure>, key: string, default: Value): (r: Value)
    ensures file.None? || file == Some("") ==> r == default
    ensures file.Some? && file != Some("") && parsed.Ok? ==>
      var doc := if Truthy(parsed.value) then parsed.value else Obj([]);
      r == if Property(doc, key).Some? && !Property(doc, key).value.Null? then Property(doc, key).value else default
    ensures file.Some? && file != Some("") && parsed.Err? ==>
      var g := FallbackMatch(file.value, key, 0);
      r == if g.Some? && g.value != "" then ClassifyRaw(Trim(g.value)) else default
  {
    match file
    case None => default
    case Some(content) =>
      if content == "" then default
      else
        match parsed
        case Ok(tree) =>
          var doc := if Truthy(tree) then tree else Obj([]);
          var m := Property(doc, key);
          if m.Some? && !m.value.Null? then m.value else default
        case Err(_) =>
          var g := FallbackMatch(content, key, 0);
          if g.Some? && g.value != "" then ClassifyRaw(Trim(g.value)) else default
  }

  /** A value the line scan gives back as written: a boolean, an integer, or a non-empty string that
      does not read as a boolean or an integer and holds no `"`, no `#` and no line terminator. */
  predicate Restorable(v: Value) {
    v.Bool? || v.Num? ||
    (v.Str? && v.s != "true" && v.s != "false" && !IsIntegerText(v.s) && v.s != "" &&
     forall j | 0 <= j < |v.s| :: v.s[j] != '"' && v.s[j] != '#' && !IsLineTerminator(v.s[j]))
  }

  /** Writing a key into a file that does not exist and reading it back through the line scan (the
      created text need not parse) gives the value written. */
  lemma {:induction false} NewFileReadBack(key: string, v: Value, default: Value, f: Failure)
    requires Restorable(v)
    requires |key| > 0 && !IsSpace(key[0]) && key[0] != '#'
    ensures var file := WriteYamlConfig(None, key, v, false, false).file;
            ReadYamlConfig(file, Err(f), key, default) == v
  {
    var fv := FormatValue(v);
    var c := Header + "\n" + key + ": " + fv + "\n";
    assert WriteYamlConfig(None, key, v, false, false).file == Some(c);
    FormatPlain(v);
    HeaderOneLine();
    NewFileMatch(Header, key, fv);
    TrimPlain(fv);
    ClassifyFormatted(v);
  }

  /** A printed value that reads back starts and ends with a non-space and holds no `#` and no line
      terminator. */
  lemma FormatPlain(v: Value)
    requires Restorable(v)
    ensures var f := FormatValue(v);
      |f| > 0 && !IsSpace(f[0]) && !IsSpace(f[|f| - 1]) &&
      forall j | 0 <= j < |f| :: f[j] != '#' && !IsLineTerminator(f[j])
  {
    match v
    case Bool(b) =>
    case Num(n) =>
      IntegerTextIsPlain(n);
      DecEndsInDigit(n);
    case Str(s) =>
      if NeedsQuotes(s) {
        var f := FormatValue(v);
        assert '"' !in s;
        assert f == "\"" + s + "\"";
        assert forall j | 1 <= j < |f| - 1 :: f[j] == s[j - 1];
      } else {
        assert !QuoteTrigger(s[0]) && !QuoteTrigger(s[|s| - 1]);
      }
  }

  /** In a created file the scan passes over the header line `pre` and captures the whole value on
      the key's line. */
  lemma {:induction false} NewFileMatch(pre: string, key: string, fv: string)
    requires |pre| > 0 && pre[0] == '#' && forall i | 0 <= i < |pre| :: !IsLineTerminator(pre[i])
    requires |key| > 0 && !IsSpace(key[0]) && key[0] != '#'
    requires |fv| > 0 && !IsSpace(fv[0]) && !IsSpace(fv[|fv| - 1])
    requires forall j | 0 <= j < |fv| :: fv[j] != '#' && !IsLineTerminator(fv[j])
    ensures FallbackMatch(pre + "\n" + key + ": " + fv + "\n", key, 0) == Some(fv)
  {
    Layout(pre, key, fv);
    CreatedScan(pre + "\n" + key + ": " + fv + "\n", key, |pre| + 1, fv);
  }

  /** The scan over a text laid out as a created file: a first line up to `h` that no key matches,
      then `KEY: ` and the value up to a line terminator. */
  lemma CreatedScan(c: string, key: string, h: nat, fv: string)
    requires 0 < h && h + |key| + 2 + |fv| < |c|
    requires |key| > 0 && !IsSpace(key[0]) && !IsSpace(c[0]) && c[0] != key[0]
    requires forall i | 0 <= i < h - 1 :: !IsLineTerminator(c[i])
    requires IsLineTerminator(c[h - 1]) && StartsWith(c[h..], key + ":")
    requires c[h + |key| + 1] == ' ' && c[h + |key| + 2..h + |key| + 2 + |fv|] == fv
    requires IsLineTerminator(c[h + |key| + 2 + |fv|])
    requires |fv| > 0 && !IsSpace(fv[0]) && !IsSpace(fv[|fv| - 1])
    requires forall j | 0 <= j < |fv| :: fv[j] != '#' && !IsLineTerminator(fv[j])
    ensures FallbackMatch(c, key, 0) == Some(fv)
  {
    var q := h + |key| + 1;
    assert c[h] == key[0];
    HeaderSkipped(c, key, h);
    KeyLineHere(c, key, h);
    CaptureLine(c, q, fv);
    ScanFinds(c, key, h, fv);
  }

  /** The scan finds `fv` when `KEY:` first matches at `h` and captures `fv` there. */
  lemma ScanFinds(c: string, key: string, h: nat, fv: string)
    requires h <= |c| && NoKeyLine(c, key, 0, h) && KeyLineFrom(c, key, h).Some?
    requires CapturedFrom(c, KeyLineFrom(c, key, h).value) == fv
    ensures FallbackMatch(c, key, 0) == Some(fv)
  {
    FallbackMatchLeftmost(c, key, 0);
    var i :| 0 <= i <= |c| && LeftmostKeyLine(c, key, 0, i, FallbackMatch(c, key, 0).value);
    assert i == h by {
      assert i <= h;
      assert !(i < h);
    }
  }

  /** No `KEY:` matches on a first line that starts with a character other than white space and the
      key's first character. */
  lemma HeaderSkipped(c: string, key: string, h: nat)
    requires 0 < h <= |c| && |key| > 0 && !IsSpace(c[0]) && c[0] != key[0]
    requires forall i | 0 <= i < h - 1 :: !IsLineTerminator(c[i])
    ensures NoKeyLine(c, key, 0, h)
  {
    assert KeyLineFrom(c, key, 0).None? by {
      assert WsRun(c, 0) == 0;
    }
    forall i | 1 <= i < h
      ensures KeyLineFrom(c, key, i).None?
    {
      assert !IsLineTerminator(c[i - 1]);
    }
  }

  /** After `KEY:` and one space, a value that fills the rest of its line is captured whole. */
  lemma CaptureLine(c: string, q: nat, fv: string)
    requires q + 1 + |fv| < |c| && c[q] == ' ' && c[q + 1..q + 1 + |fv|] == fv
    requires IsLineTerminator(c[q + 1 + |fv|])
    requires |fv| > 0 && !IsSpace(fv[0]) && !IsSpace(fv[|fv| - 1])
    requires forall j | 0 <= j < |fv| :: fv[j] != '#' && !IsLineTerminator(fv[j])
    ensures CapturedFrom(c, q) == fv
  {
    var s := q + 1;
    var e := s + |fv|;
    assert c[s] == fv[0];
    assert WsRun(c, q) == 1;
    assert forall u | s <= u < e :: c[u] == fv[u - s];
    LazyEndAtLine(c, s, e);
  }

  /** `KEY:` at the start of a line that does not start with white space matches there. */
  lemma KeyLineHere(c: string, key: string, h: nat)
    requires 0 < h < |c| && IsLineTerminator(c[h - 1]) && !IsSpace(c[h])
    requires StartsWith(c[h..], key + ":")
    ensures KeyLineFrom(c, key, h) == Some(h + |key| + 1)
  {
    assert WsRun(c, h) == 0;
  }

  /** Where the parts of a created file sit in its text. */
  lemma Layout(pre: string, key: string, fv: string)
    requires |pre| > 0 && forall i | 0 <= i < |pre| :: !IsLineTerminator(pre[i])
    ensures var c := pre + "\n" + key + ": " + fv + "\n";
      var h := |pre| + 1;
      var q := h + |key| + 1;
      q + 1 + |fv| < |c| && c[0] == pre[0] &&
      (forall i | 0 <= i < h - 1 :: !IsLineTerminator(c[i])) && c[h - 1] == '\n' &&
      StartsWith(c[h..], key + ":") && c[q] == ' ' &&
      c[q + 1..q + 1 + |fv|] == fv && c[q + 1 + |fv|] == '\n'
  {
    var c := pre + "\n" + key + ": " + fv + "\n";
    var h := |pre| + 1;
    assert forall i | 0 <= i < |pre| :: c[i] == pre[i];
    assert c == (pre + "\n") + (key + ":") + (" " + fv + "\n");
    assert c[h..] == (key + ":") + (" " + fv + "\n");
    var s := h + |key| + 2;
    assert c[s..] == fv + "\n";
  }

  /** The header line holds no line terminator and starts with `#`. */
  lemma HeaderOneLine()
    ensures Header[0] == '#'
    ensures forall i | 0 <= i < |Header| :: !IsLineTerminator(Header[i])
  {
  }

  /** `KEY:` matches from no position from `p` up to `t`. */
  predicate NoKeyLine(c: string, key: string, p: nat, t: nat)
    requires p <= t <= |c|
  {
    forall i | p <= i < t :: KeyLineFrom(c, key, i).None?
  }

  /** The value ends at the line terminator `e` when nothing from `t` up to `e` is a `#` or a line
      terminator and the text before `e` does not end in white space. */
  lemma LazyEndAtLine(c: string, t: nat, e: nat)
    requires t <= e < |c| && IsLineTerminator(c[e])
    requires forall u | t <= u < e :: c[u] != '#' && !IsLineTerminator(c[u])
    requires t < e ==> !IsSpace(c[e - 1])
    ensures LazyEnd(c, t) == e
  {
    LineEndEnds(c, e);
    forall u | t <= u < e
      ensures !ValueEnd(c, u)
    {
      var w := WsRun(c, u);
      assert u + w < e;
    }
  }

  /** A document that parses to a string answers `length` with its length and any other plain key
      with the default: the reader takes no first key. */
  lemma StringDocumentLength()
    ensures ReadYamlConfig(Some("abc"), Ok(Str("abc")), "length", Str("")) == Num(3)
    ensures ReadYamlConfig(Some("abc"), Ok(Str("abc")), "LFTCK", Str("")) == Str("")
  {
    assert ParseIndex("LFTCK").None? by { assert !IsDigit('L'); }
  }

  /** A key whose value is left empty reads, in the line scan, the text of the next line: the `\s*`
      after the colon runs over the line break. */
  lemma {:induction false} FallbackCrossesLines()
    ensures FallbackMatch("a:\nb", "a", 0) == Some("b")
  {
    var c := "a:\nb";
    assert c[0..][..2] == "a:";
    assert WsRun(c, 0) == 0;
    assert KeyLineFrom(c, "a", 0) == Some(2);
    assert WsRun(c, 3) == 0;
    assert WsRun(c, 2) == 1;
    assert WsRun(c, 4) == 0;
    assert !ValueEnd(c, 3);
    assert ValueEnd(c, 4);
    assert LazyEnd(c, 3) == 4;
    assert c[3..4] == "b";
  }
}
