/** The state the `Config` singleton keeps (components/Config.js): the YAML documents on disk, the
    cache of parsed documents (`config`), the snapshots the `change` handler diffs against
    (`oldConfig`), the registered watchers (`watcher`) and the targets handed to the WebSocket
    layer. Every operation is a pure transition from one registry to the next. */
module Store {
  import opened Wrappers
  import opened Text
  import opened Dict
  import opened Values
  import opened Merge
  import opened Diff
  import opened Reconcile

  /** A YAML file: its directory under `config/` (`config` or `default_config`) and its file name. */
  datatype FileId = FileId(dir: string, file: string)

  /** What `watcher[key]` holds: the two empty objects the constructor puts there, or a file watcher
      whose `change` handler closes over `name` and `type` (`dir` here). */
  datatype Watcher = Placeholder | Watching(name: string, dir: string)

  datatype Registry = Registry(
    files: map<FileId, Value>,
    cache: map<string, Value>,
    snapshots: map<string, Option<Value>>,
    watchers: map<string, Watcher>,
    sent: seq<Target>)

  /** A transition that may have thrown part-way; what happened before the throw stays done. */
  datatype Update = Update(st: Registry, error: Option<Failure>)

  /** A transition that also hands back a document. */
  datatype Read = Read(st: Registry, value: Result<Value, Failure>)

  /** `config/${dir}/${name}.yaml`. */
  function YamlFile(dir: string, name: string): FileId {
    FileId(dir, name + ".yaml")
  }

  /** `${dir}.${name}`, the key of the cache, of the snapshots and of the watchers. */
  function CacheKey(dir: string, name: string): string {
    dir + "." + name
  }

  /** `this.config[key]`. */
  function Cached(st: Registry, key: string): (r: Option<Value>)
    ensures r.Some? <==> key in st.cache
  {
    if key in st.cache then Some(st.cache[key]) else None
  }

  /** `this.oldConfig[key]`; a snapshot may itself be `undefined`. */
  function Snapshot(st: Registry, key: string): Option<Value> {
    if key in st.snapshots then st.snapshots[key] else None
  }

  /** Every document on disk parses to a well-formed tree. */
  predicate WfFiles(files: map<FileId, Value>) {
    forall f | f in files :: Wf(files[f])
  }

  /** The registry right after `new Config()` has set its fields and before `initCfg` runs. */
  function Initial(files: map<FileId, Value>): (st: Registry)
    ensures st.cache == map[] && st.snapshots == map[] && st.sent == []
    ensures st.watchers.Keys == {"config", "defSet"}
  {
    Registry(files, map[], map[], map["config" := Placeholder, "defSet" := Placeholder], [])
  }

  // ---------------------------------------------------------------------------------------------
  // watch and getYaml

  /** `watch(file, name, dir)`: snapshot the cached document unless a truthy snapshot exists, then
      register a watcher unless one is registered under the key already. */
  function Watch(st: Registry, name: string, dir: string): (r: Registry)
    ensures CacheKey(dir, name) in r.watchers
    ensures r.watchers.Keys == st.watchers.Keys + {CacheKey(dir, name)}
    ensures CacheKey(dir, name) in st.watchers ==> r.watchers == st.watchers
    ensures CacheKey(dir, name) !in st.watchers ==> r.watchers[CacheKey(dir, name)] == Watching(name, dir)
    ensures forall k | k in st.watchers :: k in r.watchers && r.watchers[k] == st.watchers[k]
    ensures TruthyOpt(Snapshot(st, CacheKey(dir, name))) ==> r.snapshots == st.snapshots
    ensures !TruthyOpt(Snapshot(st, CacheKey(dir, name))) ==>
      Snapshot(r, CacheKey(dir, name)) == Cached(st, CacheKey(dir, name))
    ensures forall k | k != CacheKey(dir, name) :: Snapshot(r, k) == Snapshot(st, k)
    ensures r.files == st.files && r.cache == st.cache && r.sent == st.sent
  {
    var key := CacheKey(dir, name);
    var st1 := if !TruthyOpt(Snapshot(st, key)) then st.(snapshots := st.snapshots[key := Cached(st, key)]) else st;
    if key in st1.watchers then st1 else st1.(watchers := st1.watchers[key := Watching(name, dir)])
  }

  /** Watching the same file twice has the effect of watching it once. */
  lemma WatchIdempotent(st: Registry, name: string, dir: string)
    ensures Watch(Watch(st, name, dir), name, dir) == Watch(st, name, dir)
  {
    var key := CacheKey(dir, name);
    var r := Watch(st, name, dir);
    var r2 := Watch(r, name, dir);
    assert r2.watchers == r.watchers;
    if TruthyOpt(Snapshot(st, key)) {
      assert Snapshot(r, key) == Snapshot(st, key);
    } else {
      assert r.snapshots == st.snapshots[key := Cached(st, key)];
    }
  }

  /** `getYaml(dir, name)`: a truthy cached document is returned as it is; otherwise the file is
      parsed, cached and watched. A falsy document (`null`, `0`, `""`, `false`) is parsed again on
      every read. */
  function GetYaml(st: Registry, dir: string, name: string): (r: Read)
    ensures TruthyOpt(Cached(st, CacheKey(dir, name))) ==> r == Read(st, Ok(st.cache[CacheKey(dir, name)]))
    ensures !TruthyOpt(Cached(st, CacheKey(dir, name))) && YamlFile(dir, name) !in st.files ==>
      r == Read(st, Err(NoSuchFile))
    ensures !TruthyOpt(Cached(st, CacheKey(dir, name))) && YamlFile(dir, name) in st.files ==>
      r.value == Ok(st.files[YamlFile(dir, name)]) &&
      Cached(r.st, CacheKey(dir, name)) == Some(st.files[YamlFile(dir, name)]) &&
      CacheKey(dir, name) in r.st.watchers
    ensures r.value.Ok? ==> Cached(r.st, CacheKey(dir, name)) == Some(r.value.value)
    ensures r.st.files == st.files && r.st.sent == st.sent
    ensures forall k | k in st.watchers :: k in r.st.watchers && r.st.watchers[k] == st.watchers[k]
    ensures r.st.watchers.Keys <= st.watchers.Keys + {CacheKey(dir, name)}
  {
    var key := CacheKey(dir, name);
    if TruthyOpt(Cached(st, key)) then Read(st, Ok(st.cache[key]))
    else if YamlFile(dir, name) !in st.files then Read(st, Err(NoSuchFile))
    else
      var v := st.files[YamlFile(dir, name)];
      Read(Watch(st.(cache := st.cache[key := v]), name, dir), Ok(v))
  }

  /** Once a truthy document has been read, reading it again returns the same tree and changes nothing. */
  lemma GetYamlCached(st: Registry, dir: string, name: string)
    requires GetYaml(st, dir, name).value.Ok? && Truthy(GetYaml(st, dir, name).value.value)
    ensures var r := GetYaml(st, dir, name);
            GetYaml(r.st, dir, name) == Read(r.st, r.value)
  {
  }

  // ---------------------------------------------------------------------------------------------
  // The change handler

  /** The `change` event of the watcher registered under `CacheKey(dir, name)`. The cached
      document is always evicted. When the bot is loaded and the file is `config.yaml`, the snapshot
      is consumed, the file is read again (which takes a fresh snapshot of the new tree), the two
      trees are diffed and the `servers` entries are dispatched. */
  function OnChange(st: Registry, dir: string, name: string, botLoaded: bool): (r: Update)
    requires CacheKey(dir, name) in st.watchers && st.watchers[CacheKey(dir, name)] == Watching(name, dir)
    ensures r.st.files == st.files && r.st.watchers == st.watchers
    ensures !botLoaded || name != "config" ==>
      r == Update(st.(cache := st.cache - {CacheKey(dir, name)}), None)
    ensures Cached(r.st, CacheKey(dir, name)).Some? ==>
      botLoaded && name == "config" && YamlFile(dir, name) in st.files &&
      Cached(r.st, CacheKey(dir, name)) == Some(st.files[YamlFile(dir, name)])
    ensures forall k | k != CacheKey(dir, name) :: Cached(r.st, k) == Cached(st, k)
    ensures botLoaded && name == "config" && YamlFile(dir, name) in st.files ==>
      Snapshot(r.st, CacheKey(dir, name)) == Some(st.files[YamlFile(dir, name)])
    ensures botLoaded && name == "config" && YamlFile(dir, name) !in st.files ==>
      r.error == Some(NoSuchFile) && CacheKey(dir, name) !in r.st.snapshots
    ensures |st.sent| <= |r.st.sent| && r.st.sent[..|st.sent|] == st.sent
  {
    var key := CacheKey(dir, name);
    var st1 := st.(cache := st.cache - {key});
    if !botLoaded || name != "config" then Update(st1, None)
    else
      var before := Snapshot(st1, key);
      var st2 := st1.(snapshots := st1.snapshots - {key});
      var rd := GetYaml(st2, dir, name);
      match rd.value
      case Err(f) => Update(rd.st, Some(f))
      case Ok(after) =>
        match FindDifference(before, Some(after))
        case Err(f) => Update(rd.st, Some(f))
        case Ok(report) =>
          var run := Dispatch(report, before, Some(after));
          Update(rd.st.(sent := rd.st.sent + run.sent), run.error)
  }

  /** A change event that leaves `config.yaml` as the snapshot had it dispatches nothing and
      throws nothing. */
  lemma OnChangeUnchanged(st: Registry, dir: string, name: string)
    requires CacheKey(dir, name) in st.watchers && st.watchers[CacheKey(dir, name)] == Watching(name, dir)
    requires name == "config" && YamlFile(dir, name) in st.files && Wf(st.files[YamlFile(dir, name)])
    requires Snapshot(st, CacheKey(dir, name)) == Some(st.files[YamlFile(dir, name)])
    ensures OnChange(st, dir, name, true).error.None?
    ensures OnChange(st, dir, name, true).st.sent == st.sent
  {
    var v := st.files[YamlFile(dir, name)];
    FindDifferenceSelf(Some(v));
    DispatchNothing([], Some(v), Some(v));
  }

  /** The targets one change event dispatches: those of the diff between the snapshot and the new
      tree, in report order. */
  lemma OnChangeDispatches(st: Registry, dir: string, name: string)
    requires CacheKey(dir, name) in st.watchers && st.watchers[CacheKey(dir, name)] == Watching(name, dir)
    requires name == "config" && YamlFile(dir, name) in st.files
    requires FindDifference(Snapshot(st, CacheKey(dir, name)), Some(st.files[YamlFile(dir, name)])).Ok?
    ensures var before := Snapshot(st, CacheKey(dir, name));
            var after := Some(st.files[YamlFile(dir, name)]);
            var run := Dispatch(FindDifference(before, after).value, before, after);
            var r := OnChange(st, dir, name, true);
            r.st.sent == st.sent + run.sent && r.error == run.error
  {
  }

  // ---------------------------------------------------------------------------------------------
  // Writers

  /** `YamlReader.set(key, value)` on a document, taken as an assignment of a top-level key; a
      document that is not a mapping is replaced by a mapping holding just that key. */
  function SetTop(doc: Value, key: string, v: Value): (r: Value)
    ensures r.Obj? && Member(r, key) == Some(v)
    ensures doc.Obj? ==> forall k | k != key :: Member(r, k) == Member(doc, k)
    ensures doc.Obj? ==> Keys(r.fields) == Keys(doc.fields) + (if HasKey(doc.fields, key) then [] else [key])
    ensures Wf(doc) && Wf(v) ==> Wf(r)
  {
    if doc.Obj? then
      KeysAssign(doc.fields, key, v);
      AssignKeepsWf(doc.fields, key, v);
      Obj(Assign(doc.fields, key, v))
    else Obj([Entry(key, v)])
  }

  lemma AssignKeepsWf(fs: seq<Field>, k: string, v: Value)
    ensures WfFields(fs) && Wf(v) ==> WfFields(Assign(fs, k, v))
  {
    if WfFields(fs) && Wf(v) {
      AssignWf(fs, k, v);
    }
  }

  /** `modify(name, key, value, dir)`: writes the key into the file, then stores a snapshot under
      the bare `key` (not under `${dir}.${name}`), read from the cache under that same bare key,
      and evicts the file's cached document. */
  function Modify(st: Registry, name: string, key: string, v: Value, dir: string): (r: Update)
    ensures YamlFile(dir, name) !in st.files ==> r == Update(st, Some(NoSuchFile))
    ensures YamlFile(dir, name) in st.files ==>
      r.error.None? &&
      r.st.files == st.files[YamlFile(dir, name) := SetTop(st.files[YamlFile(dir, name)], key, v)] &&
      Snapshot(r.st, key) == Cached(st, key) &&
      (forall k | k != key :: Snapshot(r.st, k) == Snapshot(st, k)) &&
      r.st.cache == st.cache - {CacheKey(dir, name)}
    ensures r.st.watchers == st.watchers && r.st.sent == st.sent
    ensures WfFiles(st.files) && Wf(v) ==> WfFiles(r.st.files)
    ensures st.files.Keys == r.st.files.Keys
  {
    var f := YamlFile(dir, name);
    if f !in st.files then Update(st, Some(NoSuchFile))
    else
      Update(st.(files := st.files[f := SetTop(st.files[f], key, v)],
                 snapshots := st.snapshots[key := Cached(st, key)],
                 cache := st.cache - {CacheKey(dir, name)}), None)
  }

  /** `modify` does not refresh the snapshot the change handler diffs against: writing `servers`
      into `config.yaml` snapshots under `servers` and leaves the `config.config` snapshot alone. */
  lemma ModifySnapshotsBareKey(st: Registry, v: Value)
    requires YamlFile("config", "config") in st.files
    ensures var r := Modify(st, "config", "servers", v, "config");
            Snapshot(r.st, "servers") == Cached(st, "servers") &&
            Snapshot(r.st, "config.config") == Snapshot(st, "config.config") &&
            "config.config" !in r.st.cache
  {
    assert CacheKey("config", "config") == "config.config";
    assert "servers" != "config.config";
  }

  /** `arr[item] = value` on a copy of an array: an index past the end extends the array, and the
      positions skipped over read back as `null`. */
  function StoreAt(items: seq<Value>, i: nat, v: Value): (r: seq<Value>)
    ensures |r| == if i < |items| then |items| else i + 1
    ensures r[i] == v
    ensures forall j | 0 <= j < |items| && j != i :: r[j] == items[j]
    ensures forall j | |items| <= j < i :: r[j] == Null
  {
    if i < |items| then items[i := v]
    else items + seq(i - |items|, _ => Null) + [v]
  }

  /** The array under a top-level key, if that is what the document holds there. */
  function ArrayAt(doc: Value, key: string): (r: Option<seq<Value>>)
    ensures r.Some? <==> Member(doc, key).Some? && Member(doc, key).value.Arr?
    ensures r.Some? ==> Member(doc, key) == Some(Arr(r.value))
  {
    match Member(doc, key)
    case Some(Arr(items)) => Some(items)
    case _ => None
  }

  /** `setArr(name, key, item, value, dir)`: the array under `key` with one element stored. A value
      under `key` that is not an array makes `slice` or the store throw. The cache is not evicted. */
  function SetArr(st: Registry, name: string, key: string, item: nat, v: Value, dir: string): (r: Update)
    ensures YamlFile(dir, name) !in st.files ==> r == Update(st, Some(NoSuchFile))
    ensures YamlFile(dir, name) in st.files && ArrayAt(st.files[YamlFile(dir, name)], key).None? ==>
      r == Update(st, Some(TypeError))
    ensures YamlFile(dir, name) in st.files && ArrayAt(st.files[YamlFile(dir, name)], key).Some? ==>
      var doc := st.files[YamlFile(dir, name)];
      var items := ArrayAt(doc, key).value;
      r.error.None? && YamlFile(dir, name) in r.st.files &&
      ArrayAt(r.st.files[YamlFile(dir, name)], key) == Some(StoreAt(items, item, v)) &&
      (doc.Obj? ==> forall k | k != key :: Member(r.st.files[YamlFile(dir, name)], k) == Member(doc, k)) &&
      r.st.files == st.files[YamlFile(dir, name) := r.st.files[YamlFile(dir, name)]]
    ensures r.st.cache == st.cache && r.st.snapshots == st.snapshots && r.st.watchers == st.watchers
  {
    var f := YamlFile(dir, name);
    if f !in st.files then Update(st, Some(NoSuchFile))
    else
      var doc := st.files[f];
      match ArrayAt(doc, key)
      case Some(items) => Update(st.(files := st.files[f := SetTop(doc, key, Arr(StoreAt(items, item, v)))]), None)
      case None => Update(st, Some(TypeError))
  }

  /** `servers.findIndex(item => item.name === value)`: the first server named `value`, `-1` when
      there is none; reading `name` of a `null` element met before the match throws. */
  function FindServer(items: seq<Value>, value: string): (r: Result<int, Failure>)
    ensures r.Ok? && r.value >= 0 ==>
      r.value < |items| && Member(items[r.value], "name") == Some(Str(value)) &&
      forall j | 0 <= j < r.value :: !items[j].Null? && Member(items[j], "name") != Some(Str(value))
    ensures r.Ok? && r.value < 0 ==> (r.value == -1 &&
      forall j | 0 <= j < |items| :: !items[j].Null? && Member(items[j], "name") != Some(Str(value)))
    ensures r.Err? ==> (r.error == TypeError &&
      exists i | 0 <= i < |items| :: items[i].Null? &&
        forall j | 0 <= j < i :: !items[j].Null? && Member(items[j], "name") != Some(Str(value)))
  {
    if |items| == 0 then Ok(-1)
    else if items[0].Null? then Err(TypeError)
    else if Member(items[0], "name") == Some(Str(value)) then Ok(0)
    else
      match FindServer(items[1..], value)
      case Err(f) =>
        var i :| 0 <= i < |items[1..]| && items[1..][i].Null? &&
          forall j | 0 <= j < i :: !items[1..][j].Null? && Member(items[1..][j], "name") != Some(Str(value));
        assert items[i + 1].Null?;
        Err(f)
      case Ok(i) => if i < 0 then Ok(-1) else Ok(i + 1)
  }

  /** `delServersArr(value, name, dir)`: removes the first server named `value` from `servers`;
      nothing is removed when there is none (`servers.-1` names no element). */
  function DelServersArr(st: Registry, value: string, name: string, dir: string): (r: Update)
    ensures YamlFile(dir, name) !in st.files ==> r == Update(st, Some(NoSuchFile))
    ensures YamlFile(dir, name) in st.files && ArrayAt(st.files[YamlFile(dir, name)], "servers").None? ==>
      r == Update(st, Some(TypeError))
    ensures YamlFile(dir, name) in st.files && ArrayAt(st.files[YamlFile(dir, name)], "servers").Some? ==>
      var doc := st.files[YamlFile(dir, name)];
      var items := ArrayAt(doc, "servers").value;
      match FindServer(items, value)
      case Err(e) => r == Update(st, Some(e))
      case Ok(i) =>
        if i < 0 then r == Update(st, None)
        else r == Update(st.(files := st.files[YamlFile(dir, name) := SetTop(doc, "servers", Arr(items[..i] + items[i + 1..]))]), None)
  {
    var f := YamlFile(dir, name);
    if f !in st.files then Update(st, Some(NoSuchFile))
    else
      var doc := st.files[f];
      match ArrayAt(doc, "servers")
      case Some(items) =>
        (match FindServer(items, value)
         case Err(e) => Update(st, Some(e))
         case Ok(i) =>
           if i < 0 then Update(st, None)
           else Update(st.(files := st.files[f := SetTop(doc, "servers", Arr(items[..i] + items[i + 1..]))]), None))
      case None => Update(st, Some(TypeError))
  }

  /** Removing a server that is listed drops exactly that one element. */
  lemma {:induction false} DelServersArrShrinks(st: Registry, value: string, name: string, dir: string)
    requires YamlFile(dir, name) in st.files
    requires var s := ArrayAt(st.files[YamlFile(dir, name)], "servers");
             s.Some? && FindServer(s.value, value).Ok? && FindServer(s.value, value).value >= 0
    ensures var before := ArrayAt(st.files[YamlFile(dir, name)], "servers").value;
            var r := DelServersArr(st, value, name, dir);
            r.error.None? && YamlFile(dir, name) in r.st.files &&
            var after := ArrayAt(r.st.files[YamlFile(dir, name)], "servers");
            after.Some? && |after.value| == |before| - 1 &&
            multiset(after.value) + multiset{before[FindServer(before, value).value]} == multiset(before)
  {
    var before := ArrayAt(st.files[YamlFile(dir, name)], "servers").value;
    RemoveAt(before, FindServer(before, value).value);
  }

  /** Dropping the `i`-th element removes exactly one occurrence of it. */
  lemma RemoveAt<T>(s: seq<T>, i: nat)
    requires i < |s|
    ensures |s[..i] + s[i + 1..]| == |s| - 1
    ensures multiset(s[..i] + s[i + 1..]) + multiset{s[i]} == multiset(s)
  {
    assert s == s[..i] + [s[i]] + s[i + 1..];
  }

  // ---------------------------------------------------------------------------------------------
  // initCfg

  /** A file name whose only `.yaml` is its extension. */
  predicate PlainYamlName(file: string) {
    EndsWith(file, ".yaml") && forall i | 0 <= i < |file| - 5 :: !StartsWith(file[i..], ".yaml")
  }

  /** `file.replace('.yaml', '')` strips the extension of a plain name, so the name leads back to the file. */
  lemma StripYaml(file: string)
    ensures PlainYamlName(file) ==> ReplaceFirst(file, ".yaml", "") + ".yaml" == file
  {
    if PlainYamlName(file) {
      StripOnlyOccurrence(file, ".yaml");
      assert file == file[..|file| - 5] + ".yaml";
    }
  }

  lemma {:induction false} StripOnlyOccurrence(s: string, p: string)
    requires |p| > 0 && EndsWith(s, p)
    requires forall i | 0 <= i < |s| - |p| :: !StartsWith(s[i..], p)
    ensures ReplaceFirst(s, p, "") == s[..|s| - |p|]
    decreases |s|
  {
    assert s[0..] == s;
    if !StartsWith(s, p) {
      var t := s[1..];
      assert t[|t| - |p|..] == s[|s| - |p|..];
      forall i | 0 <= i < |t| - |p| ensures !StartsWith(t[i..], p) {
        assert t[i..] == s[i + 1..];
      }
      StripOnlyOccurrence(t, p);
      assert s[..|s| - |p|] == [s[0]] + t[..|t| - |p|];
    }
  }

  /** `for (const key in result) this.modify(name, key, result[key])`, stopping at the first throw. */
  function WriteBack(st: Registry, name: string, fields: seq<Field>): (r: Update)
    requires forall i | 0 <= i < |fields| :: Wf(fields[i].val)
    ensures YamlFile("config", name) !in st.files ==> r.st == st && (r.error.None? <==> |fields| == 0)
    ensures YamlFile("config", name) in st.files ==> (r.error.None? && YamlFile("config", name) in r.st.files &&
      var before := st.files[YamlFile("config", name)];
      var after := r.st.files[YamlFile("config", name)];
      (DistinctKeys(fields) ==> forall k | HasKey(fields, k) :: Member(after, k) == Lookup(fields, k)) &&
      (forall k | !HasKey(fields, k) :: Member(after, k) == if |fields| == 0 || before.Obj? then Member(before, k) else None))
    ensures forall f | f != YamlFile("config", name) && f in st.files :: f in r.st.files && r.st.files[f] == st.files[f]
    ensures r.st.files.Keys == st.files.Keys
    ensures r.st.watchers == st.watchers && r.st.sent == st.sent
    ensures WfFiles(st.files) ==> WfFiles(r.st.files)
    decreases |fields|
  {
    if |fields| == 0 then Update(st, None)
    else
      var u := Modify(st, name, fields[0].key, fields[0].val, "config");
      if u.error.Some? then u
      else
        var r := WriteBack(u.st, name, fields[1..]);
        WriteBackStep(st, name, fields, u.st, r);
        r
  }

  lemma WriteBackStep(st: Registry, name: string, fields: seq<Field>, mid: Registry, r: Update)
    requires |fields| > 0 && YamlFile("config", name) in st.files
    requires mid.files == st.files[YamlFile("config", name) := SetTop(st.files[YamlFile("config", name)], fields[0].key, fields[0].val)]
    requires YamlFile("config", name) in r.st.files
    requires var before := mid.files[YamlFile("config", name)];
             var after := r.st.files[YamlFile("config", name)];
             (DistinctKeys(fields[1..]) ==> forall k | HasKey(fields[1..], k) :: Member(after, k) == Lookup(fields[1..], k)) &&
             (forall k | !HasKey(fields[1..], k) :: Member(after, k) == if |fields[1..]| == 0 || before.Obj? then Member(before, k) else None)
    ensures var before := st.files[YamlFile("config", name)];
            var after := r.st.files[YamlFile("config", name)];
            (DistinctKeys(fields) ==> forall k | HasKey(fields, k) :: Member(after, k) == Lookup(fields, k)) &&
            (forall k | !HasKey(fields, k) :: Member(after, k) == if |fields| == 0 || before.Obj? then Member(before, k) else None)
  {
    var f := YamlFile("config", name);
    var before := st.files[f];
    var mdoc := mid.files[f];
    var after := r.st.files[f];
    assert mdoc.Obj?;
    forall k | !HasKey(fields, k)
      ensures Member(after, k) == if before.Obj? then Member(before, k) else None
    {
      assert k != fields[0].key;
      LookupTail(fields, k);
      if !before.Obj? {
        assert mdoc == Obj([Entry(fields[0].key, fields[0].val)]);
        assert !HasKey(mdoc.fields, k);
      }
    }
    if DistinctKeys(fields) {
      assert DistinctKeys(fields[1..]) by {
        forall i, j | 0 <= i < j < |fields[1..]| ensures fields[1..][i].key != fields[1..][j].key {
          assert fields[1..][i] == fields[i + 1] && fields[1..][j] == fields[j + 1];
        }
      }
      forall k | HasKey(fields, k) ensures Member(after, k) == Lookup(fields, k) {
        if k == fields[0].key {
          LookupHead(fields, k);
          assert !HasKey(fields[1..], k) by {
            forall j | 0 <= j < |fields[1..]| ensures fields[1..][j].key != k {
              assert fields[1..][j] == fields[j + 1];
            }
          }
        } else {
          LookupTail(fields, k);
        }
      }
    }
  }

  /** One iteration of `initCfg` for the default file `file`: a missing user file is copied from the
      default; an existing one is merged with it and, when the merge reports differences, replaced
      by the default and then given every top-level key of the merged tree; finally it is watched. */
  function InitFile(st: Registry, file: string): (r: Update)
    requires FileId("default_config", file) in st.files && WfFiles(st.files)
    ensures FileId("config", file) in r.st.files && st.files.Keys <= r.st.files.Keys
    ensures WfFiles(r.st.files)
    ensures r.error.None? ==> CacheKey("config", ReplaceFirst(file, ".yaml", "")) in r.st.watchers
    ensures st.watchers.Keys <= r.st.watchers.Keys
    ensures PlainYamlName(file) ==> r.error.None?
    ensures r.st.sent == st.sent
  {
    var name := ReplaceFirst(file, ".yaml", "");
    var user := FileId("config", file);
    var def := FileId("default_config", file);
    if user !in st.files then Update(Watch(st.(files := st.files[user := st.files[def]]), name, "config"), None)
    else
      var m := MergeObjectsWithPriority(st.files[user], st.files[def]);
      if !m.differences then Update(Watch(st, name, "config"), None)
      else
        var w := WriteBack(st.(files := st.files[user := st.files[def]]), name, m.result.fields);
        CopiedWriteBack(st, file, m.result.fields);
        if w.error.Some? then w else Update(Watch(w.st, name, "config"), None)
  }

  /** Writing keys back into a user file freshly copied from the default keeps every file, and
      fails only when the name does not lead back to the file. */
  lemma {:induction false} CopiedWriteBack(st: Registry, file: string, fields: seq<Field>)
    requires FileId("default_config", file) in st.files && WfFiles(st.files)
    requires forall i | 0 <= i < |fields| :: Wf(fields[i].val)
    ensures var st1 := st.(files := st.files[FileId("config", file) := st.files[FileId("default_config", file)]]);
            var w := WriteBack(st1, ReplaceFirst(file, ".yaml", ""), fields);
            FileId("config", file) in w.st.files && st.files.Keys <= w.st.files.Keys && WfFiles(w.st.files) &&
            w.st.watchers == st.watchers && w.st.sent == st.sent &&
            (PlainYamlName(file) ==> w.error.None?)
  {
    var st1 := st.(files := st.files[FileId("config", file) := st.files[FileId("default_config", file)]]);
    assert WfFiles(st1.files);
    StripYaml(file);
    if PlainYamlName(file) {
      assert YamlFile("config", ReplaceFirst(file, ".yaml", "")) == FileId("config", file);
    }
  }

  /** A missing user file is created as a copy of the default. */
  lemma InitFileCopies(st: Registry, file: string)
    requires FileId("default_config", file) in st.files && WfFiles(st.files)
    requires FileId("config", file) !in st.files
    ensures InitFile(st, file) == Update(Watch(st.(files := st.files[FileId("config", file) := st.files[FileId("default_config", file)]]), ReplaceFirst(file, ".yaml", ""), "config"), None)
    ensures InitFile(st, file).st.files[FileId("config", file)] == st.files[FileId("default_config", file)]
  {
  }

  /** A user file the merge finds no differences in is left as it is. */
  lemma InitFileUntouched(st: Registry, file: string)
    requires FileId("default_config", file) in st.files && WfFiles(st.files)
    requires FileId("config", file) in st.files
    requires !MergeObjectsWithPriority(st.files[FileId("config", file)], st.files[FileId("default_config", file)]).differences
    ensures InitFile(st, file).st.files == st.files
  {
  }

  /** When the merge reports differences, the user file ends up holding exactly the merged tree's
      top-level keys and values (the default's keys are all among them). */
  lemma {:induction false} InitFileWritesBack(st: Registry, file: string)
    requires FileId("default_config", file) in st.files && WfFiles(st.files)
    requires FileId("config", file) in st.files && PlainYamlName(file)
    requires MergeObjectsWithPriority(st.files[FileId("config", file)], st.files[FileId("default_config", file)]).differences
    ensures var merged := MergeObjectsWithPriority(st.files[FileId("config", file)], st.files[FileId("default_config", file)]).result;
            var r := InitFile(st, file);
            r.error.None? && forall k :: Member(r.st.files[FileId("config", file)], k) == Lookup(merged.fields, k)
  {
    var user := FileId("config", file);
    var def := FileId("default_config", file);
    var u := st.files[user];
    var d := st.files[def];
    var merged := MergeObjectsWithPriority(u, d).result;
    StripYaml(file);
    assert YamlFile("config", ReplaceFirst(file, ".yaml", "")) == user;
    forall k ensures !HasKey(merged.fields, k) && d.Obj? ==> !HasKey(d.fields, k) {
      MergePriority(SourceFields(u), SourceFields(d), k);
    }
    assert |merged.fields| > 0 by {
      if SourceFields(u) != [] {
        MergePriority(SourceFields(u), SourceFields(d), SourceFields(u)[0].key);
      } else {
        MergePriority(SourceFields(u), SourceFields(d), SourceFields(d)[0].key);
      }
    }
  }

  /** `initCfg()`: every `.yaml` file of the default directory listing, in listing order, stopping
      at the first throw. */
  function InitCfg(st: Registry, listing: seq<string>): (r: Update)
    requires WfFiles(st.files)
    requires forall f | f in listing && EndsWith(f, ".yaml") :: FileId("default_config", f) in st.files
    ensures WfFiles(r.st.files) && st.files.Keys <= r.st.files.Keys
    ensures st.watchers.Keys <= r.st.watchers.Keys
    ensures r.error.None? ==> forall f | f in listing && EndsWith(f, ".yaml") ::
      FileId("config", f) in r.st.files && CacheKey("config", ReplaceFirst(f, ".yaml", "")) in r.st.watchers
    ensures (forall f | f in listing && EndsWith(f, ".yaml") :: PlainYamlName(f)) ==> r.error.None?
    decreases |listing|
  {
    if |listing| == 0 then Update(st, None)
    else
      assert forall f | f in listing[1..] :: f in listing;
      if !EndsWith(listing[0], ".yaml") then InitCfg(st, listing[1..])
      else
        var u := InitFile(st, listing[0]);
        if u.error.Some? then u
        else
          var r := InitCfg(u.st, listing[1..]);
          assert forall f | f in listing :: f == listing[0] || f in listing[1..];
          r
  }
}
