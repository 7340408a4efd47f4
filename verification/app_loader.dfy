/** The plugin's entry point (index.js): it walks the `apps` directory for `.js` files, derives a
    dotted identifier for each from its path below `apps`, imports every file, and registers what
    each module exports under its identifier, counting the imports that succeed and that fail. */
module AppLoader {
  import opened Wrappers
  import opened Text
  import opened Dict
  import opened Values

  /** A directory entry as `readdir(dir, { withFileTypes: true })` reports it. A directory carries
      what reading it gives: its entries, or, when `readable` is false, a throwing read. */
  datatype Node =
    | Dir(name: string, readable: bool, children: seq<Node>)
    | File(name: string)
    | Other(name: string)  // neither a directory nor a regular file: a symbolic link, a socket, …

  /** `{ identifier, filePath }`. */
  datatype JsFile = JsFile(identifier: string, filePath: string)

  /** `join(dir, name)` for an entry name read from `dir`. */
  function JoinPath(dir: string, sep: char, name: string): string {
    dir + [sep] + name
  }

  /** The identifier of a file: its path with the first `apps` directory prefix removed, one
      trailing `.js` removed, backslashes turned into slashes, and the slash-separated parts joined
      with dots. */
  function Identifier(appsDir: string, sep: char, fullPath: string): string {
    Join(Split(ReplaceChar(Stem(appsDir, sep, fullPath), '\\', '/'), '/'), '.')
  }

  /** The path relative to the `apps` directory without its `.js` suffix. */
  function Stem(appsDir: string, sep: char, fullPath: string): string {
    var rel := ReplaceFirst(fullPath, appsDir + [sep], "");
    if EndsWith(rel, ".js") then rel[..|rel| - 3] else rel
  }

  /** An identifier never holds a path separator, whatever the path. */
  lemma IdentifierPlain(appsDir: string, sep: char, fullPath: string)
    ensures '/' !in Identifier(appsDir, sep, fullPath) && '\\' !in Identifier(appsDir, sep, fullPath)
  {
    var stem := Stem(appsDir, sep, fullPath);
    NoBackslash(stem);
    DottedPlain(ReplaceChar(stem, '\\', '/'));
  }

  lemma NoBackslash(s: string)
    ensures '\\' !in ReplaceChar(s, '\\', '/')
  {
    var r := ReplaceChar(s, '\\', '/');
    assert forall i | 0 <= i < |r| :: r[i] != '\\';
  }

  /** Splitting at slashes and joining with dots leaves no separator behind. */
  lemma DottedPlain(slashed: string)
    requires '\\' !in slashed
    ensures '/' !in Join(Split(slashed, '/'), '.') && '\\' !in Join(Split(slashed, '/'), '.')
  {
    var parts := Split(slashed, '/');
    SplitAvoids(slashed, '/', '\\');
    JoinAvoids(parts, '.', '/');
    JoinAvoids(parts, '.', '\\');
  }

  /** A path name (directory or file) that holds neither kind of separator. */
  predicate PlainName(n: string) {
    '/' !in n && '\\' !in n
  }

  predicate PlainNames(ns: seq<string>) {
    forall i | 0 <= i < |ns| :: PlainName(ns[i])
  }

  /** A `.js` file reached through the directories `dirs` below `apps` gets the identifier
      made of those directory names and the file's stem, joined with dots, whichever of the two
      separators the platform uses. */
  lemma IdentifierOfPath(appsDir: string, sep: char, dirs: seq<string>, file: string)
    requires sep == '/' || sep == '\\'
    requires PlainNames(dirs) && PlainName(file) && EndsWith(file, ".js")
    ensures Identifier(appsDir, sep, appsDir + [sep] + Join(dirs + [file], sep))
      == Join(dirs + [file[..|file| - 3]], '.')
  {
    var stem := file[..|file| - 3];
    StemOfPath(appsDir, sep, dirs, file);
    StemPlain(dirs, file);
    DottedOfJoined(dirs + [stem], sep);
  }

  /** The path below `apps` with the trailing `.js` removed. */
  lemma {:induction false} StemOfPath(appsDir: string, sep: char, dirs: seq<string>, file: string)
    requires EndsWith(file, ".js")
    ensures Identifier(appsDir, sep, appsDir + [sep] + Join(dirs + [file], sep))
      == Join(Split(ReplaceChar(Join(dirs + [file[..|file| - 3]], sep), '\\', '/'), '/'), '.')
  {
    var rel := Join(dirs + [file], sep);
    ReplaceFirstPrefix(appsDir + [sep], rel, "");
    assert "" + rel == rel;
    JoinStripJs(dirs, file, sep);
    IdentifierSteps(appsDir, sep, appsDir + [sep] + rel, rel, Join(dirs + [file[..|file| - 3]], sep));
  }

  /** The joined path ends in `.js`, and without it is the join ending in the file's stem. */
  lemma JoinStripJs(dirs: seq<string>, file: string, sep: char)
    requires EndsWith(file, ".js")
    ensures var rel := Join(dirs + [file], sep);
      EndsWith(rel, ".js") && rel[..|rel| - 3] == Join(dirs + [file[..|file| - 3]], sep)
  {
    var rel := Join(dirs + [file], sep);
    var stem := file[..|file| - 3];
    JoinLast(dirs, file, sep);
    JoinLast(dirs, stem, sep);
    if |dirs| == 0 {
      StripJs(rel, stem, file);
    } else {
      var head := Join(dirs, sep) + [sep];
      assert rel == head + file;
      assert Join(dirs + [stem], sep) == head + stem;
      StripJs(rel, head + stem, file);
    }
  }

  /** Pieces joined with either separator come back joined with dots. */
  lemma DottedOfJoined(qs: seq<string>, sep: char)
    requires sep == '/' || sep == '\\'
    requires PlainNames(qs) && |qs| >= 1
    ensures Join(Split(ReplaceChar(Join(qs, sep), '\\', '/'), '/'), '.') == Join(qs, '.')
  {
    SlashJoin(qs, sep);
    SplitJoin(qs, '/');
  }

  /** The identifier of a path below the `apps` directory that ends in `.js`. */
  lemma IdentifierSteps(appsDir: string, sep: char, full: string, rel: string, stem: string)
    requires ReplaceFirst(full, appsDir + [sep], "") == rel
    requires EndsWith(rel, ".js") && rel[..|rel| - 3] == stem
    ensures Identifier(appsDir, sep, full) == Join(Split(ReplaceChar(stem, '\\', '/'), '/'), '.')
  {
    assert Stem(appsDir, sep, full) == stem;
  }

  lemma StemPlain(dirs: seq<string>, file: string)
    requires PlainNames(dirs) && PlainName(file) && |file| >= 3
    ensures PlainNames(dirs + [file[..|file| - 3]])
  {
    var qs := dirs + [file[..|file| - 3]];
    assert forall i | 0 <= i < |dirs| :: qs[i] == dirs[i];
    assert forall c | c in file[..|file| - 3] :: c in file;
  }

  /** Removing the trailing `.js` of the last piece is removing it from the joined text. */
  lemma StripJs(rel: string, stemmed: string, file: string)
    requires EndsWith(file, ".js")
    requires |rel| >= |file| && rel[|rel| - |file|..] == file
    requires stemmed == rel[..|rel| - 3]
    ensures EndsWith(rel, ".js") && rel[..|rel| - 3] == stemmed
  {
    assert rel[|rel| - 3..] == file[|file| - 3..];
  }

  /** Turning backslashes into slashes turns a path joined with either separator into one joined
      with slashes, when no piece holds a separator. */
  lemma {:induction false} SlashJoin(qs: seq<string>, sep: char)
    requires sep == '/' || sep == '\\'
    requires PlainNames(qs)
    ensures ReplaceChar(Join(qs, sep), '\\', '/') == Join(qs, '/')
    decreases |qs|
  {
    if |qs| > 1 {
      var rest := qs[1..];
      assert PlainNames(rest) by {
        forall i | 0 <= i < |rest| ensures PlainName(rest[i]) {
          assert rest[i] == qs[i + 1];
        }
      }
      SlashJoin(rest, sep);
      SlashStep(qs[0], Join(rest, sep), sep);
    } else if |qs| == 1 {
      ReplaceCharPlain(qs[0]);
    }
  }

  /** One separator and the piece before it, with the backslashes turned into slashes. */
  lemma SlashStep(q: string, rest: string, sep: char)
    requires sep == '/' || sep == '\\'
    requires '\\' !in q
    ensures ReplaceChar(q + [sep] + rest, '\\', '/') == q + ['/'] + ReplaceChar(rest, '\\', '/')
  {
    ReplaceCharConcat(q + [sep], rest);
    ReplaceCharConcat(q, [sep]);
    ReplaceCharPlain(q);
  }

  lemma {:induction false} ReplaceCharConcat(a: string, b: string)
    ensures ReplaceChar(a + b, '\\', '/') == ReplaceChar(a, '\\', '/') + ReplaceChar(b, '\\', '/')
    decreases |a|
  {
    if |a| == 0 {
      assert a + b == b;
    } else {
      assert (a + b)[0] == a[0] && (a + b)[1..] == a[1..] + b;
      ReplaceCharConcat(a[1..], b);
    }
  }

  lemma ReplaceCharPlain(n: string)
    requires '\\' !in n
    ensures ReplaceChar(n, '\\', '/') == n
  {
  }

  /** The dotted identifier gives the path's pieces back when no directory or file name holds a
      dot: such files get pairwise distinct identifiers. */
  lemma {:induction false} IdentifierParts(appsDir: string, sep: char, dirs: seq<string>, file: string)
    requires sep == '/' || sep == '\\'
    requires PlainNames(dirs) && PlainName(file) && EndsWith(file, ".js")
    requires forall i | 0 <= i < |dirs| :: '.' !in dirs[i]
    requires '.' !in file[..|file| - 3]
    ensures Split(Identifier(appsDir, sep, appsDir + [sep] + Join(dirs + [file], sep)), '.')
      == dirs + [file[..|file| - 3]]
  {
    IdentifierOfPath(appsDir, sep, dirs, file);
    DotFree(dirs, file[..|file| - 3]);
    SplitJoin(dirs + [file[..|file| - 3]], '.');
  }

  lemma DotFree(dirs: seq<string>, stem: string)
    requires forall i | 0 <= i < |dirs| :: '.' !in dirs[i]
    requires '.' !in stem
    ensures forall i | 0 <= i < |dirs + [stem]| :: '.' !in (dirs + [stem])[i]
  {
    var qs := dirs + [stem];
    assert forall i | 0 <= i < |dirs| :: qs[i] == dirs[i];
  }

  /** Names holding dots are not told apart: `a/b.js` and `a.b.js` share an identifier, and the
      second one loaded replaces the first in the registry. */
  lemma {:induction false} IdentifierCollision(appsDir: string)
    ensures Identifier(appsDir, '/', appsDir + "/a/b.js") == "a.b"
    ensures Identifier(appsDir, '/', appsDir + "/a.b.js") == "a.b"
  {
    NestedIdentifier(appsDir);
    DottedIdentifier(appsDir);
  }

  lemma NestedIdentifier(appsDir: string)
    ensures Identifier(appsDir, '/', appsDir + "/a/b.js") == "a.b"
  {
    var dirs, file := ["a"], "b.js";
    assert file[..|file| - 3] == "b";
    assert dirs + [file] == ["a", "b.js"] && dirs + [file[..|file| - 3]] == ["a", "b"];
    NestedJoins();
    assert appsDir + ['/'] + "a/b.js" == appsDir + "/a/b.js";
    IdentifierOfPath(appsDir, '/', dirs, file);
  }

  lemma NestedJoins()
    ensures Join(["a", "b.js"], '/') == "a/b.js"
    ensures Join(["a", "b"], '.') == "a.b"
  {
    assert ["a", "b.js"][1..] == ["b.js"];
    assert ["a", "b"][1..] == ["b"];
  }

  lemma DottedIdentifier(appsDir: string)
    ensures Identifier(appsDir, '/', appsDir + "/a.b.js") == "a.b"
  {
    var dirs: seq<string>, file := [], "a.b.js";
    assert file[..|file| - 3] == "a.b";
    assert dirs + [file] == ["a.b.js"] && dirs + [file[..|file| - 3]] == ["a.b"];
    assert appsDir + ['/'] + "a.b.js" == appsDir + "/a.b.js";
    IdentifierOfPath(appsDir, '/', dirs, file);
  }

  /** Every directory in the listing, however deep, can be read. */
  predicate Readable(entries: seq<Node>)
    decreases entries, 0
  {
    forall i | 0 <= i < |entries| :: EntryReadable(entries[i])
  }

  predicate EntryReadable(e: Node)
    decreases e, 1
  {
    e.Dir? ==> e.readable && Readable(e.children)
  }

  /** Number of regular files named `*.js` in the listing, however deep. */
  function JsCount(entries: seq<Node>): nat
    decreases entries, 0
  {
    if |entries| == 0 then 0 else EntryJsCount(entries[0]) + JsCount(entries[1..])
  }

  function EntryJsCount(e: Node): nat
    decreases e, 1
  {
    match e
    case Dir(_, readable, children) => if readable then JsCount(children) else 0
    case File(name) => if EndsWith(name, ".js") then 1 else 0
    case Other(_) => 0
  }

  /** A record as the walk writes it for a file below `dir`. */
  predicate Recorded(appsDir: string, sep: char, dir: string, f: JsFile) {
    StartsWith(f.filePath, dir + [sep]) && EndsWith(f.filePath, ".js")
    && f.identifier == Identifier(appsDir, sep, f.filePath)
  }

  /** `getJSFiles(dir)` over the entries read from `dir`, in order: a directory's files are spliced
      in at its place, a regular file named `*.js` gives one record, anything else nothing. A
      directory whose read throws makes the whole walk throw. */
  function Walk(appsDir: string, sep: char, dir: string, entries: seq<Node>): (r: Option<seq<JsFile>>)
    ensures r.Some? <==> Readable(entries)
    ensures r.Some? ==> |r.value| == JsCount(entries)
    ensures r.Some? ==> forall i | 0 <= i < |r.value| :: Recorded(appsDir, sep, dir, r.value[i])
    decreases entries, 0
  {
    if |entries| == 0 then Some([])
    else
      var head := WalkEntry(appsDir, sep, dir, entries[0]);
      var tail := Walk(appsDir, sep, dir, entries[1..]);
      assert forall i | 1 <= i < |entries| :: entries[1..][i - 1] == entries[i];
      if head.Some? && tail.Some? then
        var r := head.value + tail.value;
        assert forall i | |head.value| <= i < |r| :: r[i] == tail.value[i - |head.value|];
        Some(r)
      else None
  }

  function WalkEntry(appsDir: string, sep: char, dir: string, e: Node): (r: Option<seq<JsFile>>)
    ensures r.Some? <==> EntryReadable(e)
    ensures r.Some? ==> |r.value| == EntryJsCount(e)
    ensures r.Some? ==> forall i | 0 <= i < |r.value| :: Recorded(appsDir, sep, dir, r.value[i])
    decreases e, 1
  {
    var full := JoinPath(dir, sep, e.name);
    match e
    case Dir(_, readable, children) =>
      if !readable then None
      else
        var r := Walk(appsDir, sep, full, children);
        if r.Some? then
          NestedRecords(appsDir, sep, dir, e.name, r.value);
          r
        else r
    case File(name) =>
      if EndsWith(name, ".js") then
        FileRecord(appsDir, sep, dir, name);
        Some([JsFile(Identifier(appsDir, sep, full), full)])
      else Some([])
    case Other(_) => Some([])
  }

  /** Records of a subdirectory's walk are records below its parent too. */
  lemma NestedRecords(appsDir: string, sep: char, dir: string, name: string, rs: seq<JsFile>)
    requires forall i | 0 <= i < |rs| :: Recorded(appsDir, sep, JoinPath(dir, sep, name), rs[i])
    ensures forall i | 0 <= i < |rs| :: Recorded(appsDir, sep, dir, rs[i])
  {
    forall i | 0 <= i < |rs| ensures Recorded(appsDir, sep, dir, rs[i]) {
      NestedRecord(appsDir, sep, dir, name, rs[i]);
    }
  }

  lemma NestedRecord(appsDir: string, sep: char, dir: string, name: string, f: JsFile)
    requires Recorded(appsDir, sep, JoinPath(dir, sep, name), f)
    ensures Recorded(appsDir, sep, dir, f)
  {
    var a := dir + [sep];
    var s := f.filePath;
    assert JoinPath(dir, sep, name) + [sep] == a + (name + [sep]);
    assert s[..|a|] == (a + (name + [sep]))[..|a|];
  }

  /** The record of a `.js` file read from `dir`. */
  lemma FileRecord(appsDir: string, sep: char, dir: string, name: string)
    requires EndsWith(name, ".js")
    ensures Recorded(appsDir, sep, dir, JsFile(Identifier(appsDir, sep, JoinPath(dir, sep, name)), JoinPath(dir, sep, name)))
  {
    var full := JoinPath(dir, sep, name);
    assert full[..|dir + [sep]|] == dir + [sep];
    assert full[|full| - 3..] == name[|name| - 3..];
  }

  /** Both parts of a listing walked: the walk throws if either does. */
  function Both(x: Option<seq<JsFile>>, y: Option<seq<JsFile>>): Option<seq<JsFile>> {
    if x.Some? && y.Some? then Some(x.value + y.value) else None
  }

  /** The walk of two listings one after the other is the first's records followed by the
      second's. */
  lemma {:induction false} WalkAppend(appsDir: string, sep: char, dir: string, a: seq<Node>, b: seq<Node>)
    ensures Walk(appsDir, sep, dir, a + b) == Both(Walk(appsDir, sep, dir, a), Walk(appsDir, sep, dir, b))
    decreases |a|
  {
    if |a| == 0 {
      assert a + b == b;
      var y := Walk(appsDir, sep, dir, b);
      if y.Some? {
        assert [] + y.value == y.value;
      }
    } else {
      assert (a + b)[0] == a[0] && (a + b)[1..] == a[1..] + b;
      WalkAppend(appsDir, sep, dir, a[1..], b);
      var h := WalkEntry(appsDir, sep, dir, a[0]);
      var x := Walk(appsDir, sep, dir, a[1..]);
      var y := Walk(appsDir, sep, dir, b);
      if h.Some? && x.Some? && y.Some? {
        assert h.value + (x.value + y.value) == (h.value + x.value) + y.value;
      }
    }
  }

  /** A directory contributes its own walk at its place. */
  lemma WalkDir(appsDir: string, sep: char, dir: string, name: string, children: seq<Node>)
    ensures Walk(appsDir, sep, dir, [Dir(name, true, children)])
      == Walk(appsDir, sep, JoinPath(dir, sep, name), children)
  {
    var r := Walk(appsDir, sep, JoinPath(dir, sep, name), children);
    if r.Some? {
      assert r.value + [] == r.value;
    }
  }

  /** String comparison by character code, as `Array.prototype.sort` orders the export names of a
      module namespace. */
  predicate Less(a: string, b: string)
    decreases |a|
  {
    |b| > 0 && (|a| == 0 || a[0] < b[0] || (a[0] == b[0] && Less(a[1..], b[1..])))
  }

  lemma {:induction false} LessTransitive(a: string, b: string, c: string)
    requires Less(a, b) && Less(b, c)
    ensures Less(a, c)
    decreases |a|
  {
    if |a| > 0 && a[0] == b[0] && b[0] == c[0] {
      LessTransitive(a[1..], b[1..], c[1..]);
    }
  }

  lemma {:induction false} LessTotal(a: string, b: string)
    ensures a == b || Less(a, b) || Less(b, a)
    decreases |a|
  {
    if |a| > 0 && |b| > 0 && a[0] == b[0] {
      LessTotal(a[1..], b[1..]);
      if a[1..] == b[1..] {
        assert a == [a[0]] + a[1..] && b == [b[0]] + b[1..];
      }
    }
  }

  lemma {:induction false} LessIrreflexive(a: string)
    ensures !Less(a, a)
    decreases |a|
  {
    if |a| > 0 {
      LessIrreflexive(a[1..]);
    }
  }

  /** `Object.keys(namespace)[0]`: the least export name. */
  function FirstName(names: seq<string>): (k: string)
    requires |names| > 0
    ensures k in names
    ensures forall i | 0 <= i < |names| :: names[i] == k || Less(k, names[i])
    decreases |names|
  {
    if |names| == 1 then
      LessIrreflexive(names[0]);
      names[0]
    else
      var m := FirstName(names[1..]);
      assert forall i | 1 <= i < |names| :: names[i] == names[1..][i - 1];
      LessTotal(names[0], m);
      if Less(names[0], m) then
        forall i | 1 <= i < |names| && names[i] != m
          ensures Less(names[0], names[i])
        {
          LessTransitive(names[0], m, names[i]);
        }
        names[0]
      else m
  }

  /** `moduleExports?.default || moduleExports[Object.keys(moduleExports)[0]]`: the default export
      when it is truthy, otherwise the export with the least name (which may be `default` itself),
      and nothing when the module exports nothing. */
  function ExportPick(ns: seq<Field>): (r: Option<Value>)
    ensures TruthyOpt(Lookup(ns, "default")) ==> r == Lookup(ns, "default")
    ensures !TruthyOpt(Lookup(ns, "default")) && |ns| == 0 ==> r.None?
    ensures !TruthyOpt(Lookup(ns, "default")) && |ns| > 0 ==>
      exists i | 0 <= i < |ns| ::
        r == Some(ns[i].val)
        && forall j | 0 <= j < |ns| :: ns[j].key == ns[i].key || Less(ns[i].key, ns[j].key)
  {
    var d := Lookup(ns, "default");
    if TruthyOpt(d) then d
    else if |ns| == 0 then None
    else
      var k := FirstName(Keys(ns));
      FirstExport(ns, k);
      Lookup(ns, k)
  }

  lemma FirstExport(ns: seq<Field>, k: string)
    requires k in Keys(ns)
    requires forall i | 0 <= i < |Keys(ns)| :: Keys(ns)[i] == k || Less(k, Keys(ns)[i])
    ensures exists i | 0 <= i < |ns| ::
      Lookup(ns, k) == Some(ns[i].val)
      && forall j | 0 <= j < |ns| :: ns[j].key == ns[i].key || Less(ns[i].key, ns[j].key)
  {
    var i :| 0 <= i < |Keys(ns)| && Keys(ns)[i] == k;
    assert HasKey(ns, k) by { assert ns[i].key == k; }
    assert forall j | 0 <= j < |ns| :: ns[j].key == Keys(ns)[j];
  }

  /** Which files import, and what: `None` where `import()` throws. */
  type Importer = string -> Option<seq<Field>>

  /** The order in which the imports of `n` files settle: each exactly once. */
  predicate IsOrder(order: seq<nat>, n: nat) {
    |order| == n
    && (forall i | 0 <= i < n :: order[i] < n)
    && forall i, j | 0 <= i < j < n :: order[i] != order[j]
  }

  predicate InRange(order: seq<nat>, n: nat) {
    forall i | 0 <= i < |order| :: order[i] < n
  }

  /** Whether the import settled `t`-th succeeds. */
  predicate Imported(files: seq<JsFile>, imports: Importer, order: seq<nat>, t: nat)
    requires InRange(order, |files|) && t < |order|
  {
    imports(files[order[t]].filePath).Some?
  }

  /** The registry writes in the order the imports settle: one per successful import, the file's
      identifier with the export picked from its module. */
  function Registrations(files: seq<JsFile>, imports: Importer, order: seq<nat>): (w: seq<Entry<Option<Value>>>)
    requires InRange(order, |files|)
    ensures |w| <= |order|
    decreases |order|
  {
    if |order| == 0 then []
    else
      var n := |order| - 1;
      var f := files[order[n]];
      var w := Registrations(files, imports, order[..n]);
      match imports(f.filePath)
      case Some(ns) => w + [Entry(f.identifier, ExportPick(ns))]
      case None => w
  }

  /** Number of imports that throw. */
  function Failures(files: seq<JsFile>, imports: Importer, order: seq<nat>): nat
    requires InRange(order, |files|)
    decreases |order|
  {
    if |order| == 0 then 0
    else
      var n := |order| - 1;
      Failures(files, imports, order[..n]) + if imports(files[order[n]].filePath).None? then 1 else 0
  }

  /** Some import of a file carrying identifier `k` succeeds. */
  predicate ImportedAs(files: seq<JsFile>, imports: Importer, order: seq<nat>, k: string)
    requires InRange(order, |files|)
  {
    exists t | 0 <= t < |order| :: Imported(files, imports, order, t) && files[order[t]].identifier == k
  }

  /** An identifier is registered exactly when an import of a file carrying it succeeds. */
  lemma {:induction false} RegisteredIff(files: seq<JsFile>, imports: Importer, order: seq<nat>, k: string)
    requires InRange(order, |files|)
    ensures LastWrite(Registrations(files, imports, order), k).Some? <==> ImportedAs(files, imports, order, k)
    decreases |order|
  {
    if |order| > 0 {
      var n := |order| - 1;
      RegisteredIff(files, imports, order[..n], k);
      ImportedAsLast(files, imports, order, k);
      RegisteredLast(files, imports, order, k);
    }
  }

  /** The last import to settle registers `k` or leaves the earlier verdict on `k` alone. */
  lemma RegisteredLast(files: seq<JsFile>, imports: Importer, order: seq<nat>, k: string)
    requires InRange(order, |files|) && |order| > 0
    ensures var n := |order| - 1;
      LastWrite(Registrations(files, imports, order), k).Some?
      <==> LastWrite(Registrations(files, imports, order[..n]), k).Some?
           || (Imported(files, imports, order, n) && files[order[n]].identifier == k)
  {
    var n := |order| - 1;
    var w := Registrations(files, imports, order[..n]);
    var f := files[order[n]];
    if imports(f.filePath).Some? {
      LastWriteConcat(w, [Entry(f.identifier, ExportPick(imports(f.filePath).value))], k);
    }
  }

  /** A successful import carrying `k` is among the earlier ones or is the last one. */
  lemma ImportedAsLast(files: seq<JsFile>, imports: Importer, order: seq<nat>, k: string)
    requires InRange(order, |files|) && |order| > 0
    ensures var n := |order| - 1;
      ImportedAs(files, imports, order, k)
      <==> ImportedAs(files, imports, order[..n], k) || (Imported(files, imports, order, n) && files[order[n]].identifier == k)
  {
    var n := |order| - 1;
    var p := order[..n];
    assert forall t | 0 <= t < n :: p[t] == order[t];
    if ImportedAs(files, imports, order, k) {
      var t :| 0 <= t < |order| && Imported(files, imports, order, t) && files[order[t]].identifier == k;
      if t < n {
        assert Imported(files, imports, p, t) && files[p[t]].identifier == k;
      }
    }
    if ImportedAs(files, imports, p, k) {
      var t :| 0 <= t < n && Imported(files, imports, p, t) && files[p[t]].identifier == k;
      assert Imported(files, imports, order, t) && files[order[t]].identifier == k;
    }
  }

  /** The registry holds, under each identifier, the export picked from the module whose import
      settled last among the successful ones carrying it. */
  lemma {:induction false} LastSettledWins(files: seq<JsFile>, imports: Importer, order: seq<nat>, t: nat)
    requires InRange(order, |files|) && t < |order|
    requires imports(files[order[t]].filePath).Some?
    requires forall u | t < u < |order| :: Imported(files, imports, order, u) ==>
      files[order[u]].identifier != files[order[t]].identifier
    ensures LastWrite(Registrations(files, imports, order), files[order[t]].identifier)
      == Some(ExportPick(imports(files[order[t]].filePath).value))
    decreases |order|
  {
    var n := |order| - 1;
    var p := order[..n];
    var k := files[order[t]].identifier;
    var w := Registrations(files, imports, p);
    var f := files[order[n]];
    if t == n {
      LastWriteLater(w, [Entry(k, ExportPick(imports(f.filePath).value))], k);
    } else {
      assert forall u | 0 <= u < n :: p[u] == order[u];
      LastSettledWins(files, imports, p, t);
      match imports(f.filePath)
      case Some(ns) =>
        LastWriteKeep(w, [Entry(f.identifier, ExportPick(ns))], k);
      case None =>
    }
  }

  /** Imports every listed file, in the settle order `order`: a successful import stores the picked
      export under the file's identifier and counts a success, a throwing one counts a failure. */
  method LoadModules(files: seq<JsFile>, imports: Importer, order: seq<nat>)
    returns (apps: seq<Entry<Option<Value>>>, success: nat, failure: nat)
    requires |order| == |files| && InRange(order, |files|)
    ensures success + failure == |files|
    ensures success == |Registrations(files, imports, order)|
    ensures failure == Failures(files, imports, order)
    ensures DistinctKeys(apps)
    ensures forall k :: Lookup(apps, k) == LastWrite(Registrations(files, imports, order), k)
  {
    apps, success, failure := [], 0, 0;
    var i := 0;
    while i < |order|
      invariant 0 <= i <= |order|
      invariant LoadedUpTo(files, imports, order, i, apps, success, failure)
    {
      apps, success, failure := Settle(files, imports, order, i, apps, success, failure);
      i := i + 1;
    }
    assert order[..|order|] == order;
  }

  /** The callback of the `i`-th import to settle: the registry write and the counter update. */
  method Settle(files: seq<JsFile>, imports: Importer, order: seq<nat>, i: nat,
                apps: seq<Entry<Option<Value>>>, success: nat, failure: nat)
    returns (apps': seq<Entry<Option<Value>>>, success': nat, failure': nat)
    requires InRange(order, |files|) && i < |order|
    requires LoadedUpTo(files, imports, order, i, apps, success, failure)
    ensures LoadedUpTo(files, imports, order, i + 1, apps', success', failure')
  {
    var f := files[order[i]];
    LoadStep(files, imports, order, i, apps, success, failure);
    match imports(f.filePath) {
      case Some(ns) =>
        apps', success', failure' := Assign(apps, f.identifier, ExportPick(ns)), success + 1, failure;
      case None =>
        apps', success', failure' := apps, success, failure + 1;
    }
  }

  /** The state after the first `i` imports have settled: the counters count them, and the registry
      reads, at each key, the last of their registrations. */
  ghost predicate LoadedUpTo(files: seq<JsFile>, imports: Importer, order: seq<nat>, i: nat,
                       apps: seq<Entry<Option<Value>>>, success: nat, failure: nat)
    requires InRange(order, |files|) && i <= |order|
  {
    var w := Registrations(files, imports, order[..i]);
    success + failure == i && success == |w| && failure == Failures(files, imports, order[..i])
    && DistinctKeys(apps) && forall k :: Lookup(apps, k) == LastWrite(w, k)
  }

  /** Settling one more import keeps the loader's state in step. */
  lemma LoadStep(files: seq<JsFile>, imports: Importer, order: seq<nat>, i: nat,
                 apps: seq<Entry<Option<Value>>>, success: nat, failure: nat)
    requires InRange(order, |files|) && i < |order|
    requires LoadedUpTo(files, imports, order, i, apps, success, failure)
    ensures var f := files[order[i]];
      imports(f.filePath).Some? ==>
        LoadedUpTo(files, imports, order, i + 1, Assign(apps, f.identifier, ExportPick(imports(f.filePath).value)), success + 1, failure)
    ensures imports(files[order[i]].filePath).None? ==>
      LoadedUpTo(files, imports, order, i + 1, apps, success, failure + 1)
  {
    var f := files[order[i]];
    SettleStep(files, imports, order, i);
    if imports(f.filePath).Some? {
      var e := Entry(f.identifier, ExportPick(imports(f.filePath).value));
      AssignStep(apps, Registrations(files, imports, order[..i]), e);
    }
  }

  /** One more settled import: a registration when it succeeds, a failure when it throws. */
  lemma {:induction false} SettleStep(files: seq<JsFile>, imports: Importer, order: seq<nat>, i: nat)
    requires InRange(order, |files|) && i < |order|
    ensures var f := files[order[i]];
      Registrations(files, imports, order[..i + 1])
        == if imports(f.filePath).Some?
           then Registrations(files, imports, order[..i]) + [Entry(f.identifier, ExportPick(imports(f.filePath).value))]
           else Registrations(files, imports, order[..i])
    ensures Failures(files, imports, order[..i + 1])
      == Failures(files, imports, order[..i]) + if imports(files[order[i]].filePath).None? then 1 else 0
  {
    var p := order[..i + 1];
    assert p[..i] == order[..i];
    assert p[i] == order[i];
  }

  /** Storing the next registration keeps the registry reading the last registration of each key. */
  lemma AssignStep(apps: seq<Entry<Option<Value>>>, w: seq<Entry<Option<Value>>>, e: Entry<Option<Value>>)
    requires forall k :: Lookup(apps, k) == LastWrite(w, k)
    ensures forall k :: Lookup(Assign(apps, e.key, e.val), k) == LastWrite(w + [e], k)
  {
    forall k ensures Lookup(Assign(apps, e.key, e.val), k) == LastWrite(w + [e], k) {
      LastWriteConcat(w, [e], k);
    }
  }

  /** `getJSFiles(APPS_DIR)`; `None` when a read throws, `apps` itself included. */
  function Listed(appsDir: string, sep: char, listing: Option<seq<Node>>): (r: Option<seq<JsFile>>)
    ensures r.Some? <==> listing.Some? && Readable(listing.value)
    ensures r.Some? ==> |r.value| == JsCount(listing.value)
  {
    if listing.None? then None else Walk(appsDir, sep, appsDir, listing.value)
  }

  /** The whole start-up: the walk, then every import. When the walk throws nothing is imported and
      both counters stay zero; otherwise every `.js` file counts once, as a success or a failure. */
  method Startup(appsDir: string, sep: char, listing: Option<seq<Node>>, imports: Importer, order: seq<nat>)
    returns (apps: seq<Entry<Option<Value>>>, success: nat, failure: nat)
    requires Listed(appsDir, sep, listing).Some? ==> IsOrder(order, |Listed(appsDir, sep, listing).value|)
    ensures Listed(appsDir, sep, listing).None? ==> apps == [] && success == 0 && failure == 0
    ensures Listed(appsDir, sep, listing).Some? ==>
      success + failure == JsCount(listing.value)
      && forall k :: Lookup(apps, k) == LastWrite(Registrations(Listed(appsDir, sep, listing).value, imports, order), k)
  {
    var files := Listed(appsDir, sep, listing);
    if files.None? {
      return [], 0, 0;
    }
    apps, success, failure := LoadModules(files.value, imports, order);
  }
}
