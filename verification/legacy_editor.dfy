/** The older line editor local to guoba.support.js, which the configuration panel uses. Its rules
    differ from the editor of guoba/utils.js: every `KEY:` line is rewritten and a missing key is
    appended, strings are always quoted and never escaped, and the reader falls back to the first
    key of the document. A file is its text; `None` is a file that does not exist. */
module LegacyEditor {
  import opened Wrappers
  import opened Text
  import opened Values
  import LineEditor
  import Dict

  // ---------------------------------------------------------------------------------------------
  // Writing

  /** The value as it is put into the line: a string between `"` without any escaping, anything
      else interpolated as `${value}` prints it. */
  function Formatted(v: Option<Value>): (s: string)
    ensures v.Some? && v.value.Str? ==> s == "\"" + v.value.s + "\""
    ensures v.Some? && v.value.Bool? ==> s == (if v.value.b then "true" else "false")
    ensures v.Some? && v.value.Num? ==> s == IntToDec(v.value.n)
    ensures v.None? ==> s == "undefined"
  {
    if v.Some? && v.value.Str? then "\"" + v.value.s + "\"" else JsString(v)
  }

  /** `line.trim().startsWith(`${key}:`)`. */
  predicate Selected(line: string, key: string) {
    StartsWith(Trim(line), key + ":")
  }

  /** The comment kept on a rewritten line: `line.split('#')[1]` unless comments are removed or the
      line has no `#`; the empty text is the `null` or empty comment that `if (comment)` drops. */
  function KeptComment(line: string, removeComments: bool): (c: string)
    ensures '#' !in c
    ensures removeComments || '#' !in line ==> c == ""
    ensures !removeComments && '#' in line ==>
      var rest := line[IndexOf(line, '#') + 1..];
      StartsWith(rest, c) && (|c| == |rest| || rest[|c|] == '#')
  {
    if removeComments || '#' !in line then ""
    else
      var i := IndexOf(line, '#');
      SplitHead(line[i + 1..], '#');
      Split(line, '#')[1]
  }

  /** The first piece of a split is the text up to the first separator. */
  lemma SplitHead(s: string, sep: char)
    ensures var h := Split(s, sep)[0];
            StartsWith(s, h) && (|h| == |s| || s[|h|] == sep)
  {
  }

  /** The replacement of a selected line: indentation, `KEY: value` and the kept comment. */
  function NewLine(line: string, key: string, v: Option<Value>, removeComments: bool): string {
    var c := KeptComment(line, removeComments);
    var head := line[..WsRun(line, 0)] + key + ": " + Formatted(v);
    if c == "" then head else head + " #" + c
  }

  /** The loop over the lines: every selected line is replaced, every other line is kept. */
  function RewriteAll(lines: seq<string>, key: string, v: Option<Value>, removeComments: bool): (r: seq<string>)
    ensures |r| == |lines|
    ensures forall j | 0 <= j < |lines| ::
      r[j] == if Selected(lines[j], key) then NewLine(lines[j], key, v, removeComments) else lines[j]
  {
    if |lines| == 0 then []
    else
      var head := if Selected(lines[0], key) then NewLine(lines[0], key, v, removeComments) else lines[0];
      var rest := RewriteAll(lines[1..], key, v, removeComments);
      assert forall j | 1 <= j < |lines| :: lines[j] == lines[1..][j - 1];
      [head] + rest
  }

  /** `found`: some line is selected. */
  predicate AnySelected(lines: seq<string>, key: string) {
    exists j | 0 <= j < |lines| :: Selected(lines[j], key)
  }

  /** The lines written: the rewritten lines, and `KEY: value` appended when no line was selected. */
  function NewLines(lines: seq<string>, key: string, v: Option<Value>, removeComments: bool): (r: seq<string>)
    ensures AnySelected(lines, key) ==> r == RewriteAll(lines, key, v, removeComments)
    ensures !AnySelected(lines, key) ==> r == lines + [key + ": " + Formatted(v)]
  {
    var rewritten := RewriteAll(lines, key, v, removeComments);
    if AnySelected(lines, key) then rewritten
    else
      assert rewritten == lines;
      rewritten + [key + ": " + Formatted(v)]
  }

  /** The lines of a file before the write: none for a missing file. */
  function LinesOf(file: Option<string>): seq<string> {
    if file.None? then [] else Split(file.value, '\n')
  }

  /** What a call of the writer leaves behind: its answer and the file. */
  datatype Written = Written(ok: bool, file: Option<string>)

  /** `writeYamlConfig(filePath, key, value, removeComments)` of guoba.support.js. `fails` stands for
      the file system throwing (creating the directory, reading or writing the file): the answer is
      then `false` and the file is left as it was. Otherwise the file is always written, and a
      missing file is created holding only the key's line. */
  function WriteYamlConfig(file: Option<string>, key: string, v: Option<Value>, removeComments: bool, fails: bool): (r: Written)
    ensures fails ==> r == Written(false, file)
    ensures !fails ==> r.ok && r.file == Some(Join(NewLines(LinesOf(file), key, v, removeComments), '\n'))
    ensures !fails && file.None? ==> r.file == Some(key + ": " + Formatted(v))
  {
    if fails then Written(false, file)
    else
      var written := NewLines(LinesOf(file), key, v, removeComments);
      assert file.None? ==> written == [key + ": " + Formatted(v)];
      Written(true, Some(Join(written, '\n')))
  }

  // ---------------------------------------------------------------------------------------------
  // Properties of the writer

  /** A rewritten or appended line is one line when the key and the value are. */
  lemma NewLineSingle(line: string, key: string, v: Option<Value>, removeComments: bool)
    requires '\n' !in line && '\n' !in key && '\n' !in Formatted(v)
    ensures '\n' !in NewLine(line, key, v, removeComments)
  {
    var w := WsRun(line, 0);
    assert forall c | c in line[..w] :: c in line;
    var c := KeptComment(line, removeComments);
    if c != "" {
      var rest := line[IndexOf(line, '#') + 1..];
      assert forall x | x in c :: x in rest by { assert c == rest[..|c|]; }
    }
  }

  /** Lines without a line break: what splitting a text at `\n` gives. */
  predicate SingleLines(lines: seq<string>) {
    forall j | 0 <= j < |lines| :: '\n' !in lines[j]
  }

  lemma SingleLinesAppend(lines: seq<string>, line: string)
    requires SingleLines(lines) && '\n' !in line
    ensures SingleLines(lines + [line])
  {
    var r := lines + [line];
    forall j | 0 <= j < |r| ensures '\n' !in r[j] {
      if j < |lines| { assert r[j] == lines[j]; }
    }
  }

  /** The lines the writer produces hold no line break, so reading the file back gives them. */
  lemma {:induction false} NewLinesSingle(lines: seq<string>, key: string, v: Option<Value>, removeComments: bool)
    requires SingleLines(lines)
    requires '\n' !in key && '\n' !in Formatted(v)
    ensures |NewLines(lines, key, v, removeComments)| >= 1
    ensures SingleLines(NewLines(lines, key, v, removeComments))
  {
    var rewritten := RewriteAll(lines, key, v, removeComments);
    RewriteAllSingle(lines, key, v, removeComments);
    if !AnySelected(lines, key) {
      var added := key + ": " + Formatted(v);
      assert '\n' !in added by {
        assert forall c | c in added :: c in key || c in ": " || c in Formatted(v);
      }
      SingleLinesAppend(rewritten, added);
    } else {
      var j :| 0 <= j < |lines| && Selected(lines[j], key);
    }
  }

  lemma {:induction false} RewriteAllSingle(lines: seq<string>, key: string, v: Option<Value>, removeComments: bool)
    requires SingleLines(lines)
    requires '\n' !in key && '\n' !in Formatted(v)
    ensures SingleLines(RewriteAll(lines, key, v, removeComments))
  {
    forall j | 0 <= j < |lines| ensures '\n' !in NewLine(lines[j], key, v, removeComments) {
      NewLineSingle(lines[j], key, v, removeComments);
    }
  }

  /** The written file, split into lines: every selected line rewritten, every other line verbatim,
      and exactly one line appended when none was selected. */
  lemma {:induction false} WriteLines(file: Option<string>, key: string, v: Option<Value>, removeComments: bool)
    requires '\n' !in key && '\n' !in Formatted(v)
    ensures var lines := LinesOf(file);
            var after := Split(WriteYamlConfig(file, key, v, removeComments, false).file.value, '\n');
            (AnySelected(lines, key) ==> |after| == |lines|) &&
            (!AnySelected(lines, key) ==> |after| == |lines| + 1 && after[|lines|] == key + ": " + Formatted(v)) &&
            forall j | 0 <= j < |lines| ::
              after[j] == if Selected(lines[j], key) then NewLine(lines[j], key, v, removeComments) else lines[j]
  {
    var lines := LinesOf(file);
    NewLinesSingle(lines, key, v, removeComments);
    SplitJoin(NewLines(lines, key, v, removeComments), '\n');
  }

  /** A line whose trimmed text starts with `KEY:` once its indentation is dropped. */
  lemma SelectedByText(line: string, key: string, w: nat)
    requires w <= |line| && WsRun(line, 0) == w
    requires StartsWith(line[w..], key + ":")
    ensures Selected(line, key)
  {
    var t := line[w..];
    assert TrimStart(line) == t;
    var r := TrimEnd(t);
    assert t[|key|] == ':';
    assert !IsSpace(t[|key|]);
    assert |r| > |key|;
    assert r[..|key| + 1] == t[..|key| + 1];
  }

  /** The comment kept from a line built as `prefix #c` when neither part holds a `#`. */
  lemma CommentOfBuilt(prefix: string, c: string)
    requires '#' !in prefix && '#' !in c
    ensures KeptComment(prefix + " #" + c, false) == c
    ensures KeptComment(prefix, false) == ""
  {
    var s := prefix + " #" + c;
    assert '#' in s by { assert s[|prefix| + 1] == '#'; }
    SplitBuilt(prefix, c);
  }

  /** `IndexOf` finds the first occurrence. */
  lemma {:induction false} IndexOfFirst(s: string, x: char, n: nat)
    requires n < |s| && s[n] == x && x !in s[..n]
    ensures IndexOf(s, x) == n
  {
    if n > 0 {
      assert s[0] != x by { assert s[0] == s[..n][0]; }
      assert s[1..][n - 1] == x;
      assert s[1..][..n - 1] == s[..n][1..];
      IndexOfFirst(s[1..], x, n - 1);
    }
  }

  /** Splitting `prefix #c` at `#` gives the comment as the second piece. */
  lemma SplitBuilt(prefix: string, c: string)
    requires '#' !in prefix && '#' !in c
    ensures Split(prefix + " #" + c, '#')[1] == c
  {
    var s := prefix + " #" + c;
    var n := |prefix| + 1;
    assert s[n] == '#';
    assert '#' !in s[..n] by { assert s[..n] == prefix + " "; }
    IndexOfFirst(s, '#', n);
    assert s[n + 1..] == c;
  }

  /** A rewritten line is selected again and rewrites to itself, when neither the key nor the value
      holds a `#` and the key does not start with white space. */
  lemma {:induction false} NewLineFixed(line: string, key: string, v: Option<Value>, removeComments: bool)
    requires '#' !in key && '#' !in Formatted(v)
    requires |key| > 0 ==> !IsSpace(key[0])
    ensures Selected(NewLine(line, key, v, removeComments), key)
    ensures NewLine(NewLine(line, key, v, removeComments), key, v, removeComments) == NewLine(line, key, v, removeComments)
  {
    var w := WsRun(line, 0);
    var nl := NewLine(line, key, v, removeComments);
    NewLineIndent(line, key, v, removeComments);
    SelectedByText(nl, key, w);
    NewLineComment(line, key, v, removeComments);
  }

  /** The white-space run of a rewritten line is the indentation it was given, and `KEY:` follows. */
  lemma {:induction false} NewLineIndent(line: string, key: string, v: Option<Value>, removeComments: bool)
    requires |key| > 0 ==> !IsSpace(key[0])
    ensures var w := WsRun(line, 0);
            var nl := NewLine(line, key, v, removeComments);
            WsRun(nl, 0) == w && nl[..w] == line[..w] && StartsWith(nl[w..], key + ":")
  {
    var w := WsRun(line, 0);
    var indent := line[..w];
    var c := KeptComment(line, removeComments);
    var tail := if c == "" then "" else " #" + c;
    var nl := NewLine(line, key, v, removeComments);
    assert nl == indent + key + ": " + Formatted(v) + tail;
    Regroup(indent, key, Formatted(v), tail);
    BuiltIndent(indent, key + ":", " " + Formatted(v), tail);
  }

  /** The comment kept from a rewritten line is the one it was given. */
  lemma {:induction false} NewLineComment(line: string, key: string, v: Option<Value>, removeComments: bool)
    requires '#' !in key && '#' !in Formatted(v)
    ensures KeptComment(NewLine(line, key, v, removeComments), removeComments) == KeptComment(line, removeComments)
  {
    var w := WsRun(line, 0);
    var indent := line[..w];
    var c := KeptComment(line, removeComments);
    var prefix := indent + key + ": " + Formatted(v);
    assert '#' !in prefix by {
      assert forall x | x in indent :: IsSpace(x);
      assert forall x | x in prefix :: x in indent || x in key || x in ": " || x in Formatted(v);
    }
    CommentOfBuilt(prefix, c);
  }

  lemma Regroup(indent: string, key: string, value: string, tail: string)
    ensures indent + key + ": " + value + tail == indent + (key + ":") + (" " + value) + tail
  {
  }

  /** A line built from an indentation, a text starting with a non-space, and the rest: its
      white-space run is the indentation. */
  lemma BuiltIndent(indent: string, head: string, mid: string, tail: string)
    requires forall j | 0 <= j < |indent| :: IsSpace(indent[j])
    requires |head| > 0 && !IsSpace(head[0])
    ensures var s := indent + head + mid + tail;
            WsRun(s, 0) == |indent| && s[..|indent|] == indent && StartsWith(s[|indent|..], head)
  {
    var s := indent + head + mid + tail;
    assert s[..|indent|] == indent;
    assert s[|indent|] == head[0];
    WsRunOfPrefixed(s, |indent|);
    assert s[|indent|..][..|head|] == head;
  }

  /** Writing the same value twice: the second call finds the lines of the first (the appended line
      too) and rewrites each to itself, so the file is the same after both calls. */
  lemma {:induction false} WriteTwiceNoOp(file: Option<string>, key: string, v: Option<Value>, removeComments: bool)
    requires '\n' !in key && '\n' !in Formatted(v)
    requires '#' !in key && '#' !in Formatted(v)
    requires |key| > 0 ==> !IsSpace(key[0])
    ensures var once := WriteYamlConfig(file, key, v, removeComments, false);
            WriteYamlConfig(once.file, key, v, removeComments, false) == once
  {
    var lines := LinesOf(file);
    var written := NewLines(lines, key, v, removeComments);
    NewLinesSingle(lines, key, v, removeComments);
    SplitJoin(written, '\n');
    assert LinesOf(Some(Join(written, '\n'))) == written;
    NewLinesFixed(lines, key, v, removeComments);
  }

  /** The lines written are all selected or untouched by a second rewrite, and one is selected. */
  lemma {:induction false} NewLinesFixed(lines: seq<string>, key: string, v: Option<Value>, removeComments: bool)
    requires '#' !in key && '#' !in Formatted(v)
    requires |key| > 0 ==> !IsSpace(key[0])
    ensures var written := NewLines(lines, key, v, removeComments);
            NewLines(written, key, v, removeComments) == written
  {
    if AnySelected(lines, key) {
      RewrittenFixed(lines, key, v, removeComments);
    } else {
      AppendedFixed(lines, key, v, removeComments);
    }
  }

  lemma {:induction false} RewrittenFixed(lines: seq<string>, key: string, v: Option<Value>, removeComments: bool)
    requires '#' !in key && '#' !in Formatted(v)
    requires |key| > 0 ==> !IsSpace(key[0])
    requires AnySelected(lines, key)
    ensures var written := RewriteAll(lines, key, v, removeComments);
            AnySelected(written, key) && RewriteAll(written, key, v, removeComments) == written
  {
    var written := RewriteAll(lines, key, v, removeComments);
    forall j | 0 <= j < |lines| && Selected(written[j], key)
      ensures NewLine(written[j], key, v, removeComments) == written[j]
    {
      if Selected(lines[j], key) {
        NewLineFixed(lines[j], key, v, removeComments);
      }
    }
    var j :| 0 <= j < |lines| && Selected(lines[j], key);
    NewLineFixed(lines[j], key, v, removeComments);
    assert Selected(written[j], key);
    RewriteFixed(written, key, v, removeComments);
  }

  lemma {:induction false} AppendedFixed(lines: seq<string>, key: string, v: Option<Value>, removeComments: bool)
    requires '#' !in key && '#' !in Formatted(v)
    requires |key| > 0 ==> !IsSpace(key[0])
    requires !AnySelected(lines, key)
    ensures var written := lines + [key + ": " + Formatted(v)];
            AnySelected(written, key) && RewriteAll(written, key, v, removeComments) == written
  {
    var added := key + ": " + Formatted(v);
    NewLineEmpty(key, v, removeComments);
    NewLineFixed("", key, v, removeComments);
    AppendedLast(lines, added, key);
    RewriteFixed(lines + [added], key, v, removeComments);
  }

  /** Appended to lines none of which is selected, a line is the only one selected, if it is. */
  lemma AppendedLast(lines: seq<string>, added: string, key: string)
    requires !AnySelected(lines, key)
    ensures var written := lines + [added];
            written[|lines|] == added &&
            forall j | 0 <= j < |written| && Selected(written[j], key) :: j == |lines|
  {
    var written := lines + [added];
    assert forall j | 0 <= j < |lines| :: written[j] == lines[j];
  }

  /** Rewriting lines whose selected ones rewrite to themselves changes nothing. */
  lemma RewriteFixed(lines: seq<string>, key: string, v: Option<Value>, removeComments: bool)
    requires forall j | 0 <= j < |lines| && Selected(lines[j], key) ::
      NewLine(lines[j], key, v, removeComments) == lines[j]
    ensures RewriteAll(lines, key, v, removeComments) == lines
  {
  }

  // ---------------------------------------------------------------------------------------------
  // Reading

  /** `rawValue.slice(1, -1)` when the text starts and ends with `"`, the text itself otherwise. */
  function Unquote(raw: string): (r: string)
    ensures StartsWith(raw, "\"") && EndsWith(raw, "\"") && |raw| >= 2 ==> "\"" + r + "\"" == raw
    ensures !(StartsWith(raw, "\"") && EndsWith(raw, "\"")) ==> r == raw
    ensures raw == "\"" ==> r == ""
  {
    if StartsWith(raw, "\"") && EndsWith(raw, "\"") then
      if |raw| == 1 then "" else raw[1..|raw| - 1]
    else raw
  }

  /** The value text of the fallback mapped to a value, in this order: a quoted text without its
      quotes, `true`, `false`, an integer, or the text itself. */
  function ClassifyRaw(raw: string): (v: Value)
    ensures StartsWith(raw, "\"") && EndsWith(raw, "\"") ==> v == Str(Unquote(raw))
    ensures !StartsWith(raw, "\"") ==> (raw == "true" <==> v == Bool(true)) && (raw == "false" <==> v == Bool(false))
    ensures !StartsWith(raw, "\"") && IsIntegerText(raw) ==> v == Num(IntegerValue(raw))
    ensures v.Null? || v.Arr? || v.Obj? ==> false
  {
    if StartsWith(raw, "\"") && EndsWith(raw, "\"") then Str(Unquote(raw))
    else if raw == "true" || raw == "false" then Bool(raw == "true")
    else if IsIntegerText(raw) then Num(IntegerValue(raw))
    else Str(raw)
  }

  /** `(\s*#|\s*$)` at `t` without the multiline flag: white space, then a `#` or the end of the text. */
  predicate EndsAt(c: string, t: nat)
    requires t <= |c|
  {
    var w := WsRun(c, t);
    t + w == |c| || c[t + w] == '#'
  }

  /** The lazy `(.*?)` from `t`: the first position where the value may end, or `None` when a line
      terminator comes first, since `.` does not match one and `$` matches only at the end of the
      text. */
  function LazyEnd(c: string, t: nat): (e: Option<nat>)
    requires t <= |c|
    ensures e.Some? ==> t <= e.value <= |c| && EndsAt(c, e.value)
    ensures e.Some? ==> forall u | t <= u < e.value :: !EndsAt(c, u)
    ensures e.Some? ==> forall u | t <= u < e.value :: !IsLineTerminator(c[u])
    ensures e.None? ==> exists u | t <= u < |c| :: IsLineTerminator(c[u]) && !EndsAt(c, u)
    decreases |c| - t
  {
    if EndsAt(c, t) then Some(t)
    else if IsLineTerminator(c[t]) then None
    else LazyEnd(c, t + 1)
  }

  /** A match of `KEY:\s*(.*?)(\s*#|\s*$)` starting at `i`: the greedy `\s*` takes all the white
      space after the colon, and the value runs to where it may end. Giving back some of that white
      space cannot help: a value starting earlier meets the same end tests. */
  function MatchAt(c: string, key: string, i: nat): (g: Option<string>)
    requires i <= |c|
    ensures g.Some? ==> LineEditor.KeyColonAt(c, i, key)
    ensures g.Some? ==> forall j | 0 <= j < |g.value| :: !IsLineTerminator(g.value[j])
  {
    if !LineEditor.KeyColonAt(c, i, key) then None
    else
      var q := i + |key| + 1;
      var s := q + WsRun(c, q);
      match LazyEnd(c, s)
      case None => None
      case Some(e) =>
        var g := c[s..e];
        assert forall j | 0 <= j < |g| :: g[j] == c[s + j];
        Some(g)
  }

  /** `content.match(new RegExp(`${key}:\\s*(.*?)(\\s*#|\\s*$)`))[1]`, searched from `p`: the
      value of the leftmost match. `KEY:` may occur anywhere, not only at the start of a line. */
  function Fallback(c: string, key: string, p: nat): (g: Option<string>)
    requires p <= |c|
    ensures g.Some? <==> exists i | p <= i <= |c| :: MatchAt(c, key, i).Some?
    ensures g.Some? ==> exists i | p <= i <= |c| :: MatchAt(c, key, i) == g
    decreases |c| - p
  {
    match MatchAt(c, key, p)
    case Some(v) => Some(v)
    case None => if p == |c| then None else Fallback(c, key, p + 1)
  }

  /** The match at `i` gives `g`, and no position from `p` up to `i` matches. */
  predicate LeftmostMatch(c: string, key: string, p: nat, i: nat, g: Option<string>)
    requires p <= i <= |c|
  {
    MatchAt(c, key, i) == g && forall i' | p <= i' < i :: MatchAt(c, key, i').None?
  }

  /** The leftmost match wins: the fallback's value is the match at some position, and no earlier
      position matches. */
  lemma {:induction false} FallbackLeftmost(c: string, key: string, p: nat)
    requires p <= |c|
    ensures var g := Fallback(c, key, p);
      g.Some? ==> exists i | p <= i <= |c| :: LeftmostMatch(c, key, p, i, g)
    decreases |c| - p
  {
    var g := Fallback(c, key, p);
    if g.Some? {
      if MatchAt(c, key, p).Some? {
        assert LeftmostMatch(c, key, p, p, g);
      } else {
        assert g == Fallback(c, key, p + 1);
        FallbackLeftmost(c, key, p + 1);
        var i :| p + 1 <= i <= |c| && LeftmostMatch(c, key, p + 1, i, g);
        LeftmostShift(c, key, p, i, g);
      }
    }
  }

  lemma LeftmostShift(c: string, key: string, p: nat, i: nat, g: Option<string>)
    requires p < i <= |c| && MatchAt(c, key, p).None? && LeftmostMatch(c, key, p + 1, i, g)
    ensures LeftmostMatch(c, key, p, i, g)
  {
  }

  /** `parts.slice(1).join(':')` for `parts = line.split(':')`: the text after the first colon. */
  function AfterColon(line: string): (r: string)
    ensures ':' in line ==> r == line[IndexOf(line, ':') + 1..]
  {
    var parts := Split(line, ':');
    if ':' in line then
      JoinSplit(line[IndexOf(line, ':') + 1..], ':');
      assert parts[1..] == Split(line[IndexOf(line, ':') + 1..], ':');
      Join(parts[1..], ':')
    else Join(parts[1..], ':')
  }

  /** The line scan: the first selected line's text after the first colon, trimmed and unquoted. */
  function ScanLines(lines: seq<string>, key: string): (r: Option<string>)
    ensures r.Some? <==> AnySelected(lines, key)
    ensures r.Some? ==> exists j | 0 <= j < |lines| :: Selected(lines[j], key) && r.value == Unquote(Trim(AfterColon(lines[j])))
  {
    if |lines| == 0 then None
    else
      SelectedHasColon(lines[0], key);
      if Selected(lines[0], key) && |Split(lines[0], ':')| > 1 then
        Some(Unquote(Trim(AfterColon(lines[0]))))
      else
        var r := ScanLines(lines[1..], key);
        assert forall j | 1 <= j < |lines| :: lines[j] == lines[1..][j - 1];
        assert AnySelected(lines[1..], key) ==> AnySelected(lines, key);
        r
  }
  /** The index of the first selected line, or the number of lines when none is selected. */
  function FirstSelected(lines: seq<string>, key: string): (i: nat)
    ensures i <= |lines|
    ensures i < |lines| ==> Selected(lines[i], key)
    ensures forall j | 0 <= j < i :: !Selected(lines[j], key)
  {
    if |lines| == 0 then 0
    else if Selected(lines[0], key) then 0
    else
      var k := FirstSelected(lines[1..], key);
      assert forall j | 1 <= j < k + 1 :: lines[j] == lines[1..][j - 1];
      1 + k
  }

  /** The first selected line answers: the scan reads the line no earlier line is selected before. */
  lemma {:induction false} ScanLinesFirst(lines: seq<string>, key: string)
    ensures var r := ScanLines(lines, key);
      var i := FirstSelected(lines, key);
      r.Some? ==> i < |lines| && r.value == Unquote(Trim(AfterColon(lines[i])))
  {
    if |lines| > 0 {
      SelectedHasColon(lines[0], key);
      if !Selected(lines[0], key) {
        ScanLinesFirst(lines[1..], key);
        var k := FirstSelected(lines[1..], key);
        assert FirstSelected(lines, key) == k + 1;
        if k < |lines[1..]| {
          assert lines[k + 1] == lines[1..][k];
        }
      }
    }
  }



  /** A selected line holds a colon, so splitting it at `:` gives more than one piece. */
  lemma SelectedHasColon(line: string, key: string)
    ensures Selected(line, key) ==> ':' in line && |Split(line, ':')| > 1
  {
    if Selected(line, key) {
      var t := Trim(line);
      assert t[|key|] == ':';
      var w := WsRun(line, 0);
      assert t == TrimStart(line)[..|t|];
      assert line[w + |key|] == ':';
    }
  }

  /** `readYamlConfig(filePath, key, defaultValue)` of guoba.support.js. `parsed` is what `yaml.parse`
      makes of the text: a tree, or the failure that sends the reader to the pattern. A missing or
      empty file gives the default. A parsed document answers with the key's value unless it is
      `null` or missing, then with the value of its first key (for a string document, its first
      character), then with the line scan. */
  function ReadYamlConfig(file: Option<string>, parsed: Result<Value, Failure>, key: string, default: Value): (r: Value)
    ensures file.None? || file == Some("") ==> r == default
    ensures file.Some? && file != Some("") && parsed.Err? ==>
      var g := Fallback(file.value, key, 0);
      r == if g.Some? && g.value != "" then ClassifyRaw(Trim(g.value)) else default
    ensures file.Some? && file != Some("") && parsed.Ok? ==>
      var doc := if Truthy(parsed.value) then parsed.value else Obj([]);
      var m := Property(doc, key);
      r == if m.Some? && !m.value.Null? then m.value
           else if OwnKeyCount(doc) > 0 then FirstOwnValue(doc)
           else if AnySelected(Split(file.value, '\n'), key) then Str(ScanLines(Split(file.value, '\n'), key).value)
           else default
  {
    match file
    case None => default
    case Some(content) =>
      if content == "" then default
      else
        match parsed
        case Err(_) =>
          var g := Fallback(content, key, 0);
          if g.Some? && g.value != "" then ClassifyRaw(Trim(g.value)) else default
        case Ok(tree) =>
          var doc := if Truthy(tree) then tree else Obj([]);
          var m := Property(doc, key);
          if m.Some? && !m.value.Null? then m.value
          else if OwnKeyCount(doc) > 0 then FirstOwnValue(doc)
          else
            match ScanLines(Split(content, '\n'), key)
            case Some(s) => Str(s)
            case None => default
  }

  // ---------------------------------------------------------------------------------------------
  // Properties of the reader

  /** The classifier reads back what the writer puts after `KEY: ` for booleans, integers and every
      string: quoting is undone first, so a string that looks like `true` or a number stays a string. */
  lemma FormatReadBack(v: Value)
    requires v.Bool? || v.Num? || v.Str?
    ensures ClassifyRaw(Formatted(Some(v))) == v
  {
    var f := Formatted(Some(v));
    match v
    case Bool(b) =>
    case Num(n) =>
      IntegerTextRoundTrip(n);
      assert !StartsWith(f, "\"") by { assert f[0] == '-' || IsDigit(f[0]); }
    case Str(t) =>
      assert f[..1] == "\"" && f[|f| - 1..] == "\"";
      assert f[1..|f| - 1] == t;
  }

  /** The two editors disagree on the string `true`: the editor of guoba/utils.js writes it bare and
      reads back a boolean, this one quotes it and reads back the string. */
  lemma {:induction false} QuotingDiffers()
    ensures LineEditor.ClassifyRaw(LineEditor.FormatValue(Str("true"))) == Bool(true)
    ensures ClassifyRaw(Formatted(Some(Str("true")))) == Str("true")
  {
    assert !LineEditor.NeedsQuotes("true") by {
      assert forall i | 0 <= i < 4 :: !LineEditor.QuoteTrigger("true"[i]);
    }
    FormatReadBack(Str("true"));
  }

  /** The value runs to the end of the text when no `#` and no line terminator follow and the text
      does not end in white space. */
  lemma {:induction false} LazyEndAtEnd(c: string, t: nat)
    requires t < |c| && !IsSpace(c[|c| - 1])
    requires forall u | t <= u < |c| :: c[u] != '#' && !IsLineTerminator(c[u])
    ensures LazyEnd(c, t) == Some(|c|)
    decreases |c| - t
  {
    var w := WsRun(c, t);
    assert t + w < |c|;
    assert !EndsAt(c, t);
    if t + 1 < |c| {
      LazyEndAtEnd(c, t + 1);
    } else {
      assert EndsAt(c, t + 1);
    }
  }

  /** A file the writer creates reads back, through the pattern, the value written, when neither the
      key nor the printed value holds a `#` or a line terminator. */
  lemma {:induction false} NewFileFallback(key: string, v: Value)
    requires v.Bool? || v.Num? || v.Str?
    requires forall j | 0 <= j < |Formatted(Some(v))| ::
      Formatted(Some(v))[j] != '#' && !IsLineTerminator(Formatted(Some(v))[j])
    ensures var file := WriteYamlConfig(None, key, Some(v), false, false).file;
            Fallback(file.value, key, 0) == Some(Formatted(Some(v)))
  {
    var f := Formatted(Some(v));
    FormattedPlain(v);
    ValueToEnd(key, f);
  }

  /** On the line `KEY: value` the pattern's value is the whole of a value that starts and ends with
      a non-space and holds no `#` and no line terminator. */
  lemma ValueToEnd(key: string, f: string)
    requires |f| > 0 && !IsSpace(f[0]) && !IsSpace(f[|f| - 1])
    requires forall j | 0 <= j < |f| :: f[j] != '#' && !IsLineTerminator(f[j])
    ensures MatchAt(key + ": " + f, key, 0) == Some(f)
  {
    var c := key + ": " + f;
    var q := |key| + 1;
    var s := q + 1;
    assert LineEditor.KeyColonAt(c, 0, key) by { assert c[0..][..|key| + 1] == key + ":"; }
    assert c[q] == ' ' && c[s] == f[0];
    assert WsRun(c, q) == 1;
    assert forall u | s <= u < |c| :: c[u] == f[u - s];
    LazyEndAtEnd(c, s);
    assert c[s..|c|] == f;
  }

  /** A printed boolean, integer or quoted string starts and ends with a non-space. */
  lemma FormattedPlain(v: Value)
    requires v.Bool? || v.Num? || v.Str?
    ensures var f := Formatted(Some(v));
            |f| > 0 && !IsSpace(f[0]) && !IsSpace(f[|f| - 1])
  {
    match v
    case Bool(b) =>
    case Num(n) =>
      IntegerTextIsPlain(n);
      DecEndsInDigit(n);
    case Str(t) =>
  }

  /** The whole round trip: a created file whose text does not parse still reads the value back. */
  lemma {:induction false} NewFileReadBack(key: string, v: Value, default: Value, f: Failure)
    requires v.Bool? || v.Num? || v.Str?
    requires forall j | 0 <= j < |Formatted(Some(v))| ::
      Formatted(Some(v))[j] != '#' && !IsLineTerminator(Formatted(Some(v))[j])
    ensures var file := WriteYamlConfig(None, key, Some(v), false, false).file;
            ReadYamlConfig(file, Err(f), key, default) == v
  {
    var fv := Formatted(Some(v));
    NewFileFallback(key, v);
    FormattedPlain(v);
    TrimPlain(fv);
    FormatReadBack(v);
    var content := key + ": " + fv;
    assert WriteYamlConfig(None, key, Some(v), false, false).file == Some(content);
    assert content != "" by { assert content[|key|] == ':'; }
    assert Fallback(content, key, 0) == Some(fv);
    assert ReadYamlConfig(Some(content), Err(f), key, default) == ClassifyRaw(Trim(fv));
  }

  /** Without the multiline flag the pattern only finds a value that is followed by a comment or
      ends the text: a key on an inner line without a comment is not found at all. */
  lemma {:induction false} FallbackMissesInnerLine()
    ensures Fallback("a: x\nb: y", "a", 0) == None
  {
    var c := "a: x\nb: y";
    InnerLineNoMatch(c);
    NoMatchAfter(c, "a", 1);
  }

  lemma InnerLineNoMatch(c: string)
    requires c == "a: x\nb: y"
    ensures MatchAt(c, "a", 0) == None && "a"[0] !in c[1..]
  {
    InnerLineNoEnd(c);
    assert c[1..] == ": x\nb: y";
  }

  lemma InnerLineNoEnd(c: string)
    requires c == "a: x\nb: y"
    ensures LazyEnd(c, 3) == None && WsRun(c, 2) == 1
  {
    assert WsRun(c, 2) == 1;
    assert WsRun(c, 4) == 1;
    assert !EndsAt(c, 3) && !EndsAt(c, 4);
  }

  /** The search finds nothing from `p` on when the key's first character does not occur there. */
  lemma {:induction false} NoMatchAfter(c: string, key: string, p: nat)
    requires p <= |c| && |key| > 0
    requires key[0] !in c[p..]
    ensures Fallback(c, key, p) == None
  {
    forall i | p <= i <= |c| ensures MatchAt(c, key, i) == None {
      assert !LineEditor.KeyColonAt(c, i, key) by {
        if i < |c| {
          assert c[i..][0] == c[i] == c[p..][i - p];
        }
      }
    }
    assert !(exists i | p <= i <= |c| :: MatchAt(c, key, i).Some?);
  }

  /** A comment after the value ends it, on any line. */
  lemma {:induction false} FallbackStopsAtComment()
    ensures Fallback("a: x # c\nb: y", "a", 0) == Some("x")
  {
    var d := "a: x # c\nb: y";
    CommentEndsValue(d);
    assert d[3..4] == "x";
  }

  lemma CommentEndsValue(d: string)
    requires d == "a: x # c\nb: y"
    ensures LineEditor.KeyColonAt(d, 0, "a") && WsRun(d, 2) == 1 && LazyEnd(d, 3) == Some(4)
  {
    assert LineEditor.KeyColonAt(d, 0, "a") by { assert d[0..][..2] == "a:"; }
    assert WsRun(d, 2) == 1;
    assert WsRun(d, 4) == 1;
    assert !EndsAt(d, 3) && EndsAt(d, 4);
  }

  /** The value the line scan reads from a line the writer wrote for a string, comments removed. */
  lemma {:induction false} ScannedNewLine(line: string, key: string, t: string)
    requires ':' !in key
    ensures Unquote(Trim(AfterColon(NewLine(line, key, Some(Str(t)), true)))) == t
  {
    var w := WsRun(line, 0);
    var quoted := "\"" + t + "\"";
    assert NewLine(line, key, Some(Str(t)), true) == line[..w] + key + ": " + quoted;
    ColonAfterKey(line[..w], key, quoted);
    TrimQuoted(t);
  }

  /** In `indent KEY: rest` the first colon is the key's. */
  lemma ColonAfterKey(indent: string, key: string, rest: string)
    requires forall j | 0 <= j < |indent| :: IsSpace(indent[j])
    requires ':' !in key
    ensures AfterColon(indent + key + ": " + rest) == " " + rest
  {
    var nl := indent + key + ": " + rest;
    assert ':' !in indent + key by {
      assert forall x | x in indent + key :: x in indent || x in key;
    }
    var n := |indent + key|;
    assert nl[n] == ':' && nl[..n] == indent + key;
    IndexOfFirst(nl, ':', n);
    assert nl[n + 1..] == " " + rest;
  }

  lemma TrimQuoted(t: string)
    ensures Trim(" " + ("\"" + t + "\"")) == "\"" + t + "\""
  {
    var quoted := "\"" + t + "\"";
    var sq := " " + quoted;
    assert sq[1] == '"';
    WsRunOfPrefixed(sq, 1);
    assert TrimStart(sq) == quoted;
  }

  /** Some line of the written file is selected: a rewritten line or the appended one. */
  lemma {:induction false} WrittenSelected(lines: seq<string>, key: string, v: Option<Value>, removeComments: bool)
    requires |key| > 0 ==> !IsSpace(key[0])
    ensures AnySelected(NewLines(lines, key, v, removeComments), key)
  {
    var written := NewLines(lines, key, v, removeComments);
    if AnySelected(lines, key) {
      var j :| 0 <= j < |lines| && Selected(lines[j], key);
      NewLineSelected(lines[j], key, v, removeComments);
      assert Selected(written[j], key);
    } else {
      NewLineSelected("", key, v, removeComments);
      NewLineEmpty(key, v, removeComments);
      assert Selected(written[|lines|], key);
    }
  }

  /** A rewritten line is selected by the key it was written for. */
  lemma NewLineSelected(line: string, key: string, v: Option<Value>, removeComments: bool)
    requires |key| > 0 ==> !IsSpace(key[0])
    ensures Selected(NewLine(line, key, v, removeComments), key)
  {
    NewLineIndent(line, key, v, removeComments);
    SelectedByText(NewLine(line, key, v, removeComments), key, WsRun(line, 0));
  }

  /** The appended line is the rewrite of an empty line. */
  lemma NewLineEmpty(key: string, v: Option<Value>, removeComments: bool)
    ensures NewLine("", key, v, removeComments) == key + ": " + Formatted(v)
  {
    assert KeptComment("", removeComments) == "";
  }

  /** A selected line of the written file is the rewrite of the line it replaced, or the appended
      line, which is the rewrite of an empty line. */
  lemma {:induction false} WrittenLineSource(lines: seq<string>, key: string, v: Option<Value>, removeComments: bool, j: nat)
    requires j < |NewLines(lines, key, v, removeComments)|
    requires Selected(NewLines(lines, key, v, removeComments)[j], key)
    ensures NewLines(lines, key, v, removeComments)[j] ==
      NewLine(if j < |lines| then lines[j] else "", key, v, removeComments)
  {
    var written := NewLines(lines, key, v, removeComments);
    var rewritten := RewriteAll(lines, key, v, removeComments);
    if AnySelected(lines, key) {
      assert written == rewritten;
    } else {
      assert rewritten == lines;
      AppendedSource(lines, key, v, removeComments, j);
    }
  }

  lemma AppendedSource(lines: seq<string>, key: string, v: Option<Value>, removeComments: bool, j: nat)
    requires j <= |lines|
    requires Selected((lines + [key + ": " + Formatted(v)])[j], key)
    ensures (lines + [key + ": " + Formatted(v)])[j] ==
      if j < |lines| then lines[j] else NewLine("", key, v, removeComments)
  {
    assert NewLine("", key, v, removeComments) == key + ": " + Formatted(v);
  }

  lemma QuotedSingle(t: string)
    requires '\n' !in t
    ensures '\n' !in Formatted(Some(Str(t)))
  {
    assert forall x | x in "\"" + t + "\"" :: x == '"' || x in t;
  }

  /** The line scan of a file the writer wrote a string to, with comments removed, reads the string
      back, whether the key's lines were rewritten or the line was appended. */
  lemma {:induction false} ScanReadsWritten(file: Option<string>, key: string, t: string)
    requires '\n' !in key && '\n' !in t && ':' !in key
    requires |key| > 0 ==> !IsSpace(key[0])
    ensures var after := WriteYamlConfig(file, key, Some(Str(t)), true, false).file;
            ScanLines(Split(after.value, '\n'), key) == Some(t)
  {
    QuotedSingle(t);
    WrittenSplit(file, key, Some(Str(t)), true);
    ScanWritten(LinesOf(file), key, t);
  }

  /** Split at line breaks, the written file gives back the lines written, when the key and the
      value are on one line. */
  lemma {:induction false} WrittenSplit(file: Option<string>, key: string, v: Option<Value>, removeComments: bool)
    requires '\n' !in key && '\n' !in Formatted(v)
    ensures Split(WriteYamlConfig(file, key, v, removeComments, false).file.value, '\n') ==
      NewLines(LinesOf(file), key, v, removeComments)
  {
    NewLinesSingle(LinesOf(file), key, v, removeComments);
    SplitJoin(NewLines(LinesOf(file), key, v, removeComments), '\n');
  }

  /** The line scan of the lines written for a string, comments removed, finds the string. */
  lemma {:induction false} ScanWritten(lines: seq<string>, key: string, t: string)
    requires ':' !in key
    requires |key| > 0 ==> !IsSpace(key[0])
    ensures ScanLines(NewLines(lines, key, Some(Str(t)), true), key) == Some(t)
  {
    var v := Some(Str(t));
    var written := NewLines(lines, key, v, true);
    WrittenSelected(lines, key, v, true);
    var r := ScanLines(written, key);
    var j :| 0 <= j < |written| && Selected(written[j], key) && r.value == Unquote(Trim(AfterColon(written[j])));
    WrittenLineSource(lines, key, v, true, j);
    ScannedNewLine(if j < |lines| then lines[j] else "", key, t);
  }

  /** A document that parses to a non-empty string never reaches the line scan: a key it lacks
      reads its first character, the value under its first key `"0"`. */
  lemma StringDocumentAnswers(content: string, t: string, key: string, default: Value)
    requires content != "" && t != ""
    ensures var p := Property(Str(t), key);
      ReadYamlConfig(Some(content), Ok(Str(t)), key, default) ==
        if p.Some? then p.value else Property(Str(t), NatToDec(0)).value
  {
    FirstOwnValueIsProperty(Str(t));
  }

  /** The file `abc` parses to the string `abc`, so any plain key reads `a`. */
  lemma StringDocumentFirstChar()
    ensures ReadYamlConfig(Some("abc"), Ok(Str("abc")), "LFTCK", Str("")) == Str("a")
  {
    assert ParseIndex("LFTCK").None? by { assert !IsDigit('L'); }
  }

  /** A key the parsed document lacks reads the value of the document's first key. */
  lemma FirstKeyAnswers()
    ensures ReadYamlConfig(Some("b: 1"), Ok(Obj([Dict.Entry("b", Num(1))])), "a", Str("")) == Num(1)
  {
    assert !Dict.HasKey([Dict.Entry("b", Num(1))], "a");
  }

  // ---------------------------------------------------------------------------------------------
  // The configuration panel

  /** The files of the plugin by path (relative to the plugin's directory). */
  type Files = map<string, string>

  /** One call of the writer made by `setConfigData`: the file, the key (also the name of the form
      field holding the value) and whether comments are removed. */
  datatype Request = Request(path: string, key: string, removeComments: bool)

  /** The form's value for a key; a field the form does not hold is `undefined`. */
  function FieldValue(data: map<string, Value>, key: string): Option<Value> {
    if key in data then Some(data[key]) else None
  }

  /** The file at `path`, `None` when there is none. */
  function FileAt(files: Files, path: string): Option<string> {
    if path in files then Some(files[path]) else None
  }

  /** The state after one write: the file is stored when the writer produced one. */
  function Store(files: Files, path: string, w: Written): (r: Files)
    ensures w.file.Some? ==> r == files[path := w.file.value]
    ensures w.file.None? ==> r == files
  {
    if w.file.Some? then files[path := w.file.value] else files
  }

  /** One call of the writer on the file at the request's path. */
  function WriteOne(files: Files, refused: set<string>, q: Request, data: map<string, Value>): (w: Written)
    ensures w.ok <==> q.path !in refused
    ensures w.file.None? ==> q.path !in files
  {
    WriteYamlConfig(FileAt(files, q.path), q.key, FieldValue(data, q.key), q.removeComments, q.path in refused)
  }

  /** The result of a run of writes: the files after all of them and each call's answer. */
  datatype Saved = Saved(files: Files, results: seq<bool>)

  /** The writes of the array literal, made one after the other whatever the earlier ones answered.
      `refused` holds the paths at which the file system throws. */
  function WriteAll(files: Files, refused: set<string>, requests: seq<Request>, data: map<string, Value>): (r: Saved)
    ensures |r.results| == |requests|
    ensures forall i | 0 <= i < |requests| :: r.results[i] <==> requests[i].path !in refused
    ensures forall p | p in refused :: FileAt(r.files, p) == FileAt(files, p)
    decreases |requests|
  {
    if |requests| == 0 then Saved(files, [])
    else
      var q := requests[0];
      var w := WriteOne(files, refused, q, data);
      var rest := WriteAll(Store(files, q.path, w), refused, requests[1..], data);
      assert forall i | 1 <= i < |requests| :: requests[i] == requests[1..][i - 1];
      Saved(rest.files, [w.ok] + rest.results)
  }

  /** Running two lists of writes is running the first and then the second from where it left off:
      a refused write does not stop the ones after it. */
  lemma {:induction false} WriteAllAppend(files: Files, refused: set<string>, a: seq<Request>, b: seq<Request>, data: map<string, Value>)
    ensures var ra := WriteAll(files, refused, a, data);
            var rb := WriteAll(ra.files, refused, b, data);
            WriteAll(files, refused, a + b, data) == Saved(rb.files, ra.results + rb.results)
    decreases |a|
  {
    if |a| > 0 {
      var q := a[0];
      var w := WriteOne(files, refused, q, data);
      assert (a + b)[0] == q && (a + b)[1..] == a[1..] + b;
      var next := Store(files, q.path, w);
      WriteAllAppend(next, refused, a[1..], b, data);
      var ra := WriteAll(next, refused, a[1..], data);
      var rb := WriteAll(ra.files, refused, b, data);
      assert WriteAll(files, refused, a + b, data) == Saved(rb.files, [w.ok] + (ra.results + rb.results));
      assert WriteAll(files, refused, a, data) == Saved(ra.files, [w.ok] + ra.results);
      ConsAppend(w.ok, ra.results, rb.results);
    } else {
      assert a + b == b;
      assert WriteAll(files, refused, a, data) == Saved(files, []);
      var rb := WriteAll(files, refused, b, data);
      assert [] + rb.results == rb.results;
    }
  }

  /** A key the line-based writer and reader handle as one token: no colon, no line break, and
      no leading white space. */
  predicate PlainKey(key: string) {
    ':' !in key && '\n' !in key && (|key| > 0 ==> !IsSpace(key[0]))
  }

  /** The file at the request's path has a line for its key. */
  predicate Present(files: Files, q: Request) {
    q.path in files && AnySelected(Split(files[q.path], '\n'), q.key)
  }

  /** A line is selected by at most one key without a colon. */
  lemma SelectedExclusive(line: string, k1: string, k2: string)
    requires ':' !in k1 && ':' !in k2 && k1 != k2
    requires Selected(line, k1)
    ensures !Selected(line, k2)
  {
    var t := Trim(line);
    assert t[..|k1| + 1] == k1 + ":";
    if |k1| < |k2| {
      assert t[|k1|] == ':';
      assert k2[|k1|] != ':';
    } else if |k2| < |k1| {
      assert k1[|k2|] != ':';
      assert t[|k2|] == k1[|k2|];
    } else {
      assert t[..|k1|] == k1;
    }
  }

  /** Writing one key keeps the line of another key without a colon. */
  lemma {:induction false} WritePreservesOther(lines: seq<string>, k1: string, k2: string, v: Option<Value>, removeComments: bool)
    requires ':' !in k1 && ':' !in k2 && k1 != k2
    requires AnySelected(lines, k1)
    ensures AnySelected(NewLines(lines, k2, v, removeComments), k1)
  {
    var j :| 0 <= j < |lines| && Selected(lines[j], k1);
    SelectedExclusive(lines[j], k1, k2);
    var written := NewLines(lines, k2, v, removeComments);
    assert written[j] == RewriteAll(lines, k2, v, removeComments)[j];
    assert written[j] == lines[j];
  }

  /** The lines of the file one write leaves at its path. */
  lemma WriteOneLines(files: Files, refused: set<string>, q: Request, data: map<string, Value>)
    requires q.path !in refused && '\n' !in q.key && '\n' !in Formatted(FieldValue(data, q.key))
    ensures var after := Store(files, q.path, WriteOne(files, refused, q, data));
            q.path in after &&
            Split(after[q.path], '\n') == NewLines(LinesOf(FileAt(files, q.path)), q.key, FieldValue(data, q.key), q.removeComments)
  {
    var written := NewLines(LinesOf(FileAt(files, q.path)), q.key, FieldValue(data, q.key), q.removeComments);
    NewLinesSingle(LinesOf(FileAt(files, q.path)), q.key, FieldValue(data, q.key), q.removeComments);
    SplitJoin(written, '\n');
  }

  /** A write that is not refused leaves a line for its key. */
  lemma {:induction false} WriteOnePresent(files: Files, refused: set<string>, q: Request, data: map<string, Value>)
    requires q.path !in refused && PlainKey(q.key) && '\n' !in Formatted(FieldValue(data, q.key))
    ensures Present(Store(files, q.path, WriteOne(files, refused, q, data)), q)
  {
    WriteOneLines(files, refused, q, data);
    WrittenSelected(LinesOf(FileAt(files, q.path)), q.key, FieldValue(data, q.key), q.removeComments);
  }

  /** A write keeps every line another request found present. */
  lemma WriteOneKeeps(files: Files, refused: set<string>, q: Request, r: Request, data: map<string, Value>)
    requires Present(files, r) && PlainKey(q.key) && PlainKey(r.key)
    requires '\n' !in Formatted(FieldValue(data, q.key))
    ensures Present(Store(files, q.path, WriteOne(files, refused, q, data)), r)
  {
    if q.path !in refused && q.path == r.path {
      WriteOneLines(files, refused, q, data);
      var lines := LinesOf(FileAt(files, q.path));
      assert lines == Split(files[r.path], '\n');
      if q.key == r.key {
        WrittenSelected(lines, q.key, FieldValue(data, q.key), q.removeComments);
      } else {
        WritePreservesOther(lines, r.key, q.key, FieldValue(data, q.key), q.removeComments);
      }
    }
  }

  /** Requests whose keys are plain and whose values print on one line. */
  predicate LineSafe(requests: seq<Request>, data: map<string, Value>) {
    forall i | 0 <= i < |requests| ::
      PlainKey(requests[i].key) && '\n' !in Formatted(FieldValue(data, requests[i].key))
  }

  /** A run of writes keeps every line found present before it. */
  lemma {:induction false} WriteAllKeeps(files: Files, refused: set<string>, requests: seq<Request>, data: map<string, Value>, r: Request)
    requires Present(files, r) && PlainKey(r.key) && LineSafe(requests, data)
    ensures Present(WriteAll(files, refused, requests, data).files, r)
    decreases |requests|
  {
    if |requests| > 0 {
      var q := requests[0];
      WriteOneKeeps(files, refused, q, r, data);
      LineSafeTail(requests, data);
      WriteAllKeeps(Store(files, q.path, WriteOne(files, refused, q, data)), refused, requests[1..], data, r);
    }
  }

  /** After a run of writes, every request that was not refused has a line for its key in its file. */
  lemma {:induction false} WriteAllPresent(files: Files, refused: set<string>, requests: seq<Request>, data: map<string, Value>)
    requires LineSafe(requests, data)
    ensures forall i | 0 <= i < |requests| && requests[i].path !in refused ::
      Present(WriteAll(files, refused, requests, data).files, requests[i])
    decreases |requests|
  {
    if |requests| > 0 {
      var q := requests[0];
      var next := Store(files, q.path, WriteOne(files, refused, q, data));
      LineSafeTail(requests, data);
      WriteAllPresent(next, refused, requests[1..], data);
      if q.path !in refused {
        WriteOnePresent(files, refused, q, data);
        WriteAllKeeps(next, refused, requests[1..], data, q);
      }
      WriteAllTail(files, refused, requests, data);
    }
  }

  lemma LineSafeTail(requests: seq<Request>, data: map<string, Value>)
    requires |requests| > 0 && LineSafe(requests, data)
    ensures LineSafe(requests[1..], data)
  {
    assert forall i | 0 <= i < |requests[1..]| :: requests[1..][i] == requests[i + 1];
  }

  /** The files after a run are those after its tail, run on the files the first write leaves. */
  lemma WriteAllTail(files: Files, refused: set<string>, requests: seq<Request>, data: map<string, Value>)
    requires |requests| > 0
    ensures var q := requests[0];
            var next := Store(files, q.path, WriteOne(files, refused, q, data));
            WriteAll(files, refused, requests, data).files == WriteAll(next, refused, requests[1..], data).files &&
            forall i | 1 <= i < |requests| :: requests[i] == requests[1..][i - 1]
  {
  }

  lemma ConsAppend(x: bool, ys: seq<bool>, zs: seq<bool>)
    ensures [x] + (ys + zs) == [x] + ys + zs
  {
  }

  /** The files the panel writes, relative to the plugin's directory. */
  const AdminPath := "config/config/admin.yaml"
  const TpApiPath := "data/API/TPAPI.yaml"
  const WebsiteApiPath := "data/API/website.yaml"
  const ZhjxApiPath := "data/API/ZHJXAPI.yaml"
  const YxApiPath := "data/API/YXAPI.yaml"
  const WebsiteKeyPath := "data/KEY/website.yaml"
  const ZhjxKeyPath := "data/KEY/ZHJXKEY.yaml"
  const YxKeyPath := "data/KEY/YXKEY.yaml"
  const LftckPath := "data/Cookie/LFTCK.yaml"
  const SmtpPath := "config/config/smtp.yaml"

  /** The fields the panel writes, in order: the eight switches of `admin.yaml`, the API addresses,
      the API keys, then the Cookie and the mail settings. */
  const AdminKeys: seq<string> := ["WZXXALL", "DKSMALL", "WSYMALL", "RWMALL", "ICPALL", "DYJXALL", "ZHJXALL", "YXFSALL"]
  const ApiAddressKeys: seq<string> := ["TPAPI", "WZXXAPI", "DKSMAPI", "YMCXAPI", "RWMAPI", "ICPAPI", "ZHJXAPI", "YXAPI"]
  const ApiSecretKeys: seq<string> := ["WZXXKEY", "DKSMKEY", "YMCXKEY", "RWMKEY", "ICPKEY", "ZHJXKEY", "YXKEY"]
  const CookieAndMailKeys: seq<string> := ["LFTCK", "smtp", "smtp_user", "smtp_password", "smtp_port", "webname"]
  const PanelKeys: seq<string> := AdminKeys + ApiAddressKeys + ApiSecretKeys + CookieAndMailKeys

  function Repeat(path: string, n: nat): seq<string> {
    seq(n, i => path)
  }

  /** The file each field is written to. */
  const PanelPaths: seq<string> :=
    Repeat(AdminPath, 8) + [TpApiPath] + Repeat(WebsiteApiPath, 5) + [ZhjxApiPath, YxApiPath] +
    Repeat(WebsiteKeyPath, 5) + [ZhjxKeyPath, YxKeyPath] + [LftckPath] + Repeat(SmtpPath, 5)

  /** The position of the Cookie, the one field written with its comments removed. */
  const CookieField: int := 23

  const PanelRequests: seq<Request> := PanelWrites(PanelPaths, PanelKeys)

  /** Each field with its file; only the Cookie's line loses its comment. */
  function PanelWrites(paths: seq<string>, keys: seq<string>): (r: seq<Request>)
    requires |paths| == |keys|
  {
    seq(|keys|, i requires 0 <= i < |keys| => Request(paths[i], keys[i], i == CookieField))
  }

  /** What `setConfigData` answers and leaves behind. */
  datatype Answer = Answer(ok: bool, files: Files)

  /** `results.every(Boolean)` over writes that are all made: the answer is `true` exactly when no
      write was refused, and the files are those after every write. */
  function SaveAll(files: Files, refused: set<string>, requests: seq<Request>, data: map<string, Value>): (r: Answer)
    ensures r.ok <==> forall i | 0 <= i < |requests| :: requests[i].path !in refused
    ensures r.files == WriteAll(files, refused, requests, data).files
  {
    var saved := WriteAll(files, refused, requests, data);
    Answer(forall i | 0 <= i < |saved.results| :: saved.results[i], saved.files)
  }

  /** `setConfigData(configData)`. */
  function SetConfigData(files: Files, refused: set<string>, data: map<string, Value>): Answer {
    SaveAll(files, refused, PanelRequests, data)
  }

  /** After the panel saves, every field whose file was not refused has a line in its file, when the
      values print on one line. */
  lemma {:induction false} PanelSaved(files: Files, refused: set<string>, data: map<string, Value>)
    requires forall i | 0 <= i < |PanelRequests| :: '\n' !in Formatted(FieldValue(data, PanelRequests[i].key))
    ensures var r := SetConfigData(files, refused, data);
            forall i | 0 <= i < |PanelRequests| && PanelRequests[i].path !in refused :: Present(r.files, PanelRequests[i])
  {
    PanelKeysPlain();
    WriteAllPresent(files, refused, PanelRequests, data);
  }

  predicate PlainKeys(requests: seq<Request>) {
    forall i | 0 <= i < |requests| :: PlainKey(requests[i].key)
  }

  predicate AllPlain(keys: seq<string>) {
    forall i | 0 <= i < |keys| :: PlainKey(keys[i])
  }

  lemma AllPlainAppend(a: seq<string>, b: seq<string>)
    requires AllPlain(a) && AllPlain(b)
    ensures AllPlain(a + b)
  {
    forall i | 0 <= i < |a + b| ensures PlainKey((a + b)[i]) {
      if i < |a| { assert (a + b)[i] == a[i]; } else { assert (a + b)[i] == b[i - |a|]; }
    }
  }

  /** The panel's keys are plain: no colon, no line break, no leading blank. */
  lemma {:induction false} PanelKeysPlain()
    ensures PlainKeys(PanelRequests)
  {
    AdminKeysPlain();
    ApiAddressKeysPlain();
    ApiSecretKeysPlain();
    MailKeysPlain();
    AllPlainAppend(AdminKeys, ApiAddressKeys);
    AllPlainAppend(AdminKeys + ApiAddressKeys, ApiSecretKeys);
    AllPlainAppend(AdminKeys + ApiAddressKeys + ApiSecretKeys, CookieAndMailKeys);
    assert forall i | 0 <= i < |PanelRequests| :: PanelRequests[i].key == PanelKeys[i];
  }

  lemma AdminKeysPlain()
    ensures AllPlain(AdminKeys)
  {
  }

  lemma ApiAddressKeysPlain()
    ensures AllPlain(ApiAddressKeys)
  {
  }

  lemma ApiSecretKeysPlain()
    ensures AllPlain(ApiSecretKeys)
  {
  }

  lemma MailKeysPlain()
    ensures AllPlain(CookieAndMailKeys)
  {
  }

  /** A key of ASCII letters, digits and `_` only: spliced into a regular expression it holds no
      metacharacter, so the pattern matches it as literal text. */
  predicate WordKey(key: string) {
    |key| > 0 && forall i | 0 <= i < |key| :: WordChar(key[i])
  }

  predicate WordChar(c: char) {
    'a' <= c <= 'z' || 'A' <= c <= 'Z' || '0' <= c <= '9' || c == '_'
  }

  predicate AllWord(keys: seq<string>) {
    forall i | 0 <= i < |keys| :: WordKey(keys[i])
  }

  /** A word key is plain in the sense the line scan needs. */
  lemma WordKeyPlain(key: string)
    requires WordKey(key)
    ensures PlainKey(key)
  {
    assert WordChar(key[0]);
    assert forall i | 0 <= i < |key| :: key[i] != ':' && key[i] != '\n' by {
      forall i | 0 <= i < |key| ensures key[i] != ':' && key[i] != '\n' { assert WordChar(key[i]); }
    }
  }

  /** Every key the panel writes is a word key, so the readers' regular expressions match it
      literally. */
  lemma {:induction false} PanelKeysWord()
    ensures AllWord(PanelKeys)
  {
    AdminKeysWord();
    ApiAddressKeysWord();
    ApiSecretKeysWord();
    MailKeysWord();
    AllWordAppend(AdminKeys, ApiAddressKeys);
    AllWordAppend(AdminKeys + ApiAddressKeys, ApiSecretKeys);
    AllWordAppend(AdminKeys + ApiAddressKeys + ApiSecretKeys, CookieAndMailKeys);
  }

  lemma AdminKeysWord()
    ensures AllWord(AdminKeys)
  {
  }

  lemma ApiAddressKeysWord()
    ensures AllWord(ApiAddressKeys)
  {
  }

  lemma ApiSecretKeysWord()
    ensures AllWord(ApiSecretKeys)
  {
  }

  lemma MailKeysWord()
    ensures AllWord(CookieAndMailKeys)
  {
  }

  lemma AllWordAppend(a: seq<string>, b: seq<string>)
    requires AllWord(a) && AllWord(b)
    ensures AllWord(a + b)
  {
    forall i | 0 <= i < |a + b| ensures WordKey((a + b)[i]) {
      if i < |a| { assert (a + b)[i] == a[i]; } else { assert (a + b)[i] == b[i - |a|]; }
    }
  }

  /** The panel writes 29 fields, and only the Cookie's line loses its comment. */
  lemma PanelTable()
    ensures |PanelRequests| == 29
    ensures forall i | 0 <= i < |PanelRequests| :: PanelRequests[i].removeComments <==> PanelRequests[i].key == "LFTCK"
  {
    CookieKeyOnce();
  }

  /** `LFTCK` is the Cookie's key and no other field's. */
  lemma CookieKeyOnce()
    ensures forall i | 0 <= i < |PanelKeys| :: PanelKeys[i] == "LFTCK" <==> i == CookieField
  {
    var n := |AdminKeys + ApiAddressKeys + ApiSecretKeys|;
    assert forall i | 0 <= i < n :: PanelKeys[i] in AdminKeys + ApiAddressKeys + ApiSecretKeys;
    assert "LFTCK" !in AdminKeys + ApiAddressKeys + ApiSecretKeys;
    assert forall i | n <= i < |PanelKeys| :: PanelKeys[i] == CookieAndMailKeys[i - n];
  }
}
