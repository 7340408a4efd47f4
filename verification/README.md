# BXX-plugin configuration core in Dafny

This project models the configuration core of BXX-plugin, a plugin for a chat bot, and proves
properties of the model. The core has five parts:

- **Config store** (`components/Config.js`). It loads configuration files lazily and caches
  them. At startup it merges each user file with its shipped default. It watches files for
  changes. On each change to the `config` document it diffs the new tree against the last
  snapshot. It turns every difference under `servers` into a `{ type, data }` target and hands
  that target to the WebSocket layer.
- **Line-based YAML editors.** There are two: the newer one (`guoba/utils.js`) and the older one
  (`guoba.support.js`). Each reads or rewrites a single `key: value` line in place, so the rest
  of the file keeps its comments and layout. The older one also backs the settings panel's
  `setConfigData`.
- **Help-page theme** (`apps/help/toolhelp.js`). It turns an icon number into a sprite position.
  It clamps the column count and column width. It resolves each style key through a chain of
  sources.
- **Application loader** (`index.js`). It walks the `apps` directory for `.js` files and derives
  a dotted identifier from each path. It imports every file, registers what each module exports,
  and counts successes and failures.

## Modules

| module | file | what it holds |
|---|---|---|
| `Wrappers` | wrappers.dfy | `Option` (where `None` is JavaScript's `undefined`), `Result`, and the exceptions the code can raise |
| `Text` | text.dfy | JavaScript string operations: `\s`, `trim`, `split`/`join`, `replace`, `startsWith`/`endsWith`, integer text and `String(n)` |
| `Dict` | dict.dfy | objects as insertion-ordered key lists: lookup, assignment, `Object.assign`, and the last write to a key in a report |
| `Values` | values.dfy | the YAML tree (`Null`, `Bool`, `Num`, `Str`, `Arr`, `Obj`), plus truthiness, `typeof`, `_.isEqual`, `_.isObject` and `_.isPlainObject` |
| `Merge` | merge.dfy | `mergeObjectsWithPriority` with lodash's `mergeWith` and the customizer |
| `Diff` | diff.dfy | `findDifference` |
| `Reconcile` | reconcile.dfy | the `servers` branch of the `change` handler |
| `Store` | store.dfy | the `Config` object's state, with `getYaml`, `watch`, `modify`, `setArr`, `delServersArr` and `initCfg` |
| `LineEditor` | line_editor.dfy | `guoba/utils.js` |
| `LegacyEditor` | legacy_editor.dfy | `guoba.support.js` (`readYamlConfig`, `writeYamlConfig`, `setConfigData`) |
| `HelpTheme` | help_theme.dfy | `apps/help/toolhelp.js` |
| `AppLoader` | app_loader.dfy | `index.js` |

The file system enters the model as values:

- the store works on `map<FileId, Value>` of parsed documents;
- the editors work on an `Option<string>` of file text, where `None` means the file is missing;
- the loader works on a tree of directory entries.

The module importer enters the loader as a function parameter. So does the order in which the
asynchronous imports settle.

## Behaviour worth knowing

- **The `differences` flag.** `mergeObjectsWithPriority` raises it whenever either tree has a
  key, not only when the merged tree differs from the user tree. lodash's first pass into `{}`
  gives the customizer an undefined `objValue` for every key. See `Merge.MergeFlag` and
  `Merge.FlagWithoutChange`.
- **What `initCfg` writes on a difference.** It copies the default file over the user file. It
  then writes each top-level key of the merged tree back with `modify`. No separate hook is
  called.
- **Target types.** The types are `add`, `del`, `close` and `open`. A `true` that appears
  yields `close`, and a `false` yields `open`.
- **Diff recursion into arrays.** `findDifference` recurses into anything `_.isObject` accepts,
  arrays included, so array elements are reported under index paths.
- **Diff on a missing side.** `findDifference` throws a `TypeError` when one side is nullish and
  the other has keys.
- **The snapshot `modify` writes.** `modify` stores its snapshot under the bare key it
  modified, not under the document's cache key. The diff baseline of the document is therefore
  not refreshed (`Store.ModifySnapshotsBareKey`). A change event re-reading the same content
  still dispatches nothing (`Store.OnChangeUnchanged`).
- **Which documents are diffed.** The `change` handler diffs every document whose name is
  `config`, whatever its directory. It does nothing past eviction while `Bot` is undefined.

## Model

| member | source | states |
|---|---|---|
| Merge.Customize | components/Config.js:198-210 | two plain objects that differ lead to a recursive merge; otherwise the user value wins if present, else the default's; a missing user key always raises the flag; two arrays never raise it |
| Merge.CustomizeUndefined | components/Config.js:205-207 | with no user value, the customizer yields the default's value and raises the flag |
| Merge.FirstPassIsGenericLoop | components/Config.js:212 | copying the user tree into `{}` through the customizer reproduces the user tree, and raises the flag exactly when it has a key |
| Merge.CopyIntoDisjoint | components/Config.js:212 | merging keys the target lacks appends them in order |
| Merge.SecondPassLookup | components/Config.js:198-212 | after the default pass, each default key holds the customizer's verdict on the two values, and every other key is unchanged |
| Merge.MergeObjectsWithPriority | components/Config.js:195-218 | the result is an object whose mappings have distinct keys; `differences` holds iff either tree has a key |
| Merge.MergeFlag | components/Config.js:205-212 | the merge flag is raised iff the user tree or the default tree has a key |
| Merge.FlagWithoutChange | components/Config.js:195-218 | merging a tree with itself raises `differences` although the result equals the input |
| Merge.MergePriority | components/Config.js:195-218 | the merged keys are the union of both trees' keys; the user value wins unless both are differing plain objects, which merge recursively; a default-only key is copied |
| Merge.SecondPassKeyOrder | components/Config.js:212 | the default pass keeps the target's key order and appends only the keys the target lacked |
| Merge.MergeKeyOrder | components/Config.js:212 | the merged key order is the user's keys, then the default-only keys in default order |
| Diff.CoreGood | components/Config.js:173-193 | every path in the report lies under the parent path, and no path is reported twice |
| Diff.FindDifference | components/Config.js:173-193 | the call throws a `TypeError` exactly when one side is nullish and the other has keys; otherwise the report's paths are distinct and dotted from the root |
| Diff.DiffAtKey | components/Config.js:175-185 | the entry at an old key's path is absent iff both values are objects or the two are deep-equal; otherwise it carries both values |
| Diff.DiffAddedKey | components/Config.js:186-191 | a key only the new tree owns is reported with an undefined old value |
| Diff.DiffSelf | components/Config.js:173-193 | diffing a tree against itself reports nothing |
| Diff.FindDifferenceSelf | components/Config.js:173-193 | `findDifference(o, o)` is the empty object for any document |
| Reconcile.Classify | components/Config.js:91-99 | each target type is characterised on its own: `add` for a new object, `del` for a removed object, `close` for `true` replacing `false` or nothing, `open` for `false` replacing `true` or nothing |
| Reconcile.ClassifySwitch | components/Config.js:95-98 | flipping a flag to `true` yields `close` and flipping it to `false` yields `open` |
| Reconcile.ClassifyAppearing | components/Config.js:91-99 | an appearing or vanishing value is classified by its `typeof`, and `null` counts as an object |
| Reconcile.ClassifyReplaced | components/Config.js:91-99 | a value replaced by another yields a type only for a boolean flip |
| Reconcile.ServerName | components/Config.js:83-85 | the server name read from a path holds no dot |
| Reconcile.ReadServer | components/Config.js:85 | reading `servers[name]` throws a `TypeError` exactly when the document or its `servers` is nullish |
| Reconcile.ServerData | components/Config.js:85-86 | a server absent from the new tree is read from the old one; a throwing read of the new tree throws |
| Reconcile.ServerEntriesMembers | components/Config.js:80-84 | an entry is handled iff it is in the report and its first path segment is `servers` |
| Reconcile.Dispatch | components/Config.js:80-102 | the targets sent are those of the leading `servers` entries, in report order; a run without failure sends one target per `servers` entry, and a failure is a `TypeError` |
| Reconcile.DispatchStopsAtFailure | components/Config.js:84-85 | a failed run stops at the first `servers` entry whose data read throws: every earlier entry was sent and reading the next one fails |
| Reconcile.DispatchFails | components/Config.js:85-86 | the loop throws iff some `servers` entry's data read throws |
| Reconcile.DispatchNothing | components/Config.js:84 | a report without `servers` entries sends nothing |
| Store.Watch | components/Config.js:63-107 | watching registers a watcher once and never replaces one; the snapshot is taken only when none is truthy |
| Store.WatchIdempotent | components/Config.js:63-67 | watching the same file twice is the same as watching it once |
| Store.GetYaml | components/Config.js:47-60 | a truthy cached tree is returned untouched; otherwise the file is parsed, cached and watched, or the read fails when the file is missing |
| Store.GetYamlCached | components/Config.js:51 | a second read of a truthy document changes nothing |
| Store.OnChange | components/Config.js:69-104 | a change evicts the cache entry; without `Bot`, or for a document not named `config`, nothing else happens; otherwise the snapshot rolls forward to the file and targets are appended to the sent log |
| Store.OnChangeUnchanged | components/Config.js:74-102 | a change event whose file equals the snapshot sends nothing and does not fail |
| Store.OnChangeDispatches | components/Config.js:74-102 | a change event sends exactly what `Reconcile.Dispatch` computes for the diff of the snapshot against the file |
| Store.SetTop | components/Config.js:125 | a top-level set binds the key, keeps every other key, and appends a new key at the end |
| Store.Modify | components/Config.js:123-128 | a missing file fails; otherwise the file gains the key, the snapshot under the bare key is refreshed, and the document's cache entry is dropped |
| Store.ModifySnapshotsBareKey | components/Config.js:126 | modifying `servers` in `config` refreshes the snapshot named `servers` and leaves the `config.config` baseline alone |
| Store.StoreAt | components/Config.js:153 | `arr[item] = value` on a copy sets that slot, keeps the others, and pads a gap with holes |
| Store.ArrayAt | components/Config.js:152 | the key's value is available as an array exactly when it is one |
| Store.SetArr | components/Config.js:149-155 | a missing file fails; a non-array key throws a `TypeError`; otherwise only that slot of that key changes, and the cache and snapshots are untouched |
| Store.FindServer | components/Config.js:162 | `findIndex` yields the first server with that name, `-1` when none has it, and throws when it meets `null` first |
| Store.DelServersArr | components/Config.js:157-164 | the first server with that name is removed from `servers`; when none matches, the file is unchanged |
| Store.DelServersArrShrinks | components/Config.js:157-164 | a successful delete shortens `servers` by one and removes exactly the matching element |
| Store.StripYaml | components/Config.js:35 | for a plain `name.yaml`, `file.replace('.yaml', '')` gives back the name the write-back and the watcher use |
| Store.WriteBack | components/Config.js:34-36 | after the write-back loop, each merged key holds its merged value and every other key keeps its value |
| Store.InitFile | components/Config.js:25-39 | after one file of the loop, the user file exists; a plainly named file is watched without error |
| Store.InitFileCopies | components/Config.js:26-27 | a missing user file becomes a verbatim copy of the default file, which is then watched |
| Store.InitFileUntouched | components/Config.js:28-32 | without differences, the user file is left as it is |
| Store.InitFileWritesBack | components/Config.js:32-36 | with differences, every top-level key of the user file ends up as in the merged tree |
| Store.InitCfg | components/Config.js:20-41 | after the loop, every default `.yaml` file has a user copy and a watcher |
| LineEditor.NeedsQuotes | guoba/utils.js:5-7 | a string needs quotes iff it contains whitespace, `:`, `#` or `"` |
| LineEditor.Escape | guoba/utils.js:15 | escaping never shortens a string and leaves quote-free text alone |
| LineEditor.EscapeRoundTrip | guoba/utils.js:15 | unescaping an escaped string gives it back |
| LineEditor.EscapedQuotesGuarded | guoba/utils.js:15 | every `"` in escaped text is preceded by a backslash |
| LineEditor.FormatValue | guoba/utils.js:9-19 | booleans and numbers print as text; a string is bare or quoted-and-escaped according to `NeedsQuotes`; anything else prints empty |
| LineEditor.FormatStringsInjective | guoba/utils.js:9-19 | two different strings never format to the same text |
| LineEditor.Comment | guoba/utils.js:70 | the captured comment is what follows some `#` up to the end of the line, and there is none without a `#` |
| LineEditor.CommentLeftmost | guoba/utils.js:70 | a comment is found iff some `#` is followed by no line terminator, and it is the text after the leftmost such `#` |
| LineEditor.NewLine | guoba/utils.js:69-72 | the rewritten line keeps the indentation, writes `key: value`, and keeps the comment unless comments are removed |
| LineEditor.FirstKeyLine | guoba/utils.js:66-68 | the index found is the first line that matches the key pattern |
| LineEditor.RewriteFirst | guoba/utils.js:66-77 | the line count is kept; a key line is found iff one exists; with none, nothing changes |
| LineEditor.RewriteFirstLine | guoba/utils.js:67-77 | only the first matching line is rewritten |
| LineEditor.WriteYamlConfig | guoba/utils.js:53-91 | a file system error answers `false` and leaves the file as it was; a missing file is created with the header and one line; a file without the key is refused and unchanged; otherwise only the first key line is rewritten; the file is written iff its text changes |
| LineEditor.RewriteFile | guoba/utils.js:62-86 | an existing file is accepted iff one of its lines is a key line, and then only the first key line changes; the file is written iff its text changes |
| LineEditor.WriteKeepsLines | guoba/utils.js:63-82 | a successful write keeps the line count and every line except the rewritten one |
| LineEditor.WrittenLines | guoba/utils.js:63-82 | the lines of the written file are the old lines with the first key line replaced |
| LineEditor.WriteTwiceNoOp | guoba/utils.js:82-85 | writing the same value twice leaves the file as the first write left it, and the second write does not touch the file |
| LineEditor.NewLineIndent | guoba/utils.js:69 | a rewritten line keeps exactly the old indentation |
| LineEditor.NewLineComment | guoba/utils.js:70-71 | a rewritten line carries the old comment, or none when comments are removed |
| LineEditor.KeyAfter | guoba/utils.js:31 | a `key:` is found within the search window iff one occurs there, and the match ends just after the colon |
| LineEditor.LazyEnd | guoba/utils.js:31 | the lazy group stops at the first place where optional blanks then a `#` or the end of a line follow, and never crosses a line break |
| LineEditor.CapturedFrom | guoba/utils.js:31 | the captured value never contains a line break |
| LineEditor.FallbackMatch | guoba/utils.js:31-33 | the fallback regex matches iff some line start is followed by blanks, the key and a colon |
| LineEditor.FallbackMatchLeftmost | guoba/utils.js:31-33 | the value is captured at the first line start where the key matches; no earlier position matches |
| LineEditor.ClassifyRaw | guoba/utils.js:34-39 | `true` and `false` become booleans, integer text becomes a number, and quoted text loses its quotes |
| LineEditor.ClassifyFormatted | guoba/utils.js:9-19 | the fallback reader reads back what the formatter writes for booleans, numbers and plain strings |
| LineEditor.ClassifyQuoted | guoba/utils.js:15 | a quoted string without inner quotes reads back as itself |
| LineEditor.ClassifyQuotedRaw | guoba/utils.js:38 | quoted raw text reads as the text between the quotes |
| LineEditor.ClassifyBare | guoba/utils.js:15 | a bare string that looks like neither a boolean nor a number reads back as itself |
| LineEditor.ReadYamlConfig | guoba/utils.js:21-51 | a missing or empty file gives the default; a parsed document gives the key's non-null value or the default; an unparsable file goes through the line-regex fallback |
| LineEditor.StringDocumentLength | guoba/utils.js:43-46 | a document that parses to a string answers `length` with its length and a plain key with the default |
| LineEditor.NewFileReadBack | guoba/utils.js:31-60 | a value written to a new file reads back through the line fallback when the key starts with neither white space nor `#` and the value is a boolean, an integer or a string without `"`, `#` or line breaks that does not read as a boolean or integer |
| LineEditor.FallbackCrossesLines | guoba/utils.js:31 | the `\s*` after the colon can cross a line break, so an empty value reads the next line |
| LegacyEditor.Formatted | guoba.support.js:73 | a string is wrapped in quotes without escaping; other values print as `String(value)` |
| LegacyEditor.KeptComment | guoba.support.js:72 | the kept comment is the text between the first `#` and the next one |
| LegacyEditor.RewriteAll | guoba.support.js:69-81 | every line that starts with `key:` after trimming is rewritten, and every other line is kept |
| LegacyEditor.NewLines | guoba.support.js:69-85 | with no matching line, a `key: value` line is appended |
| LegacyEditor.WriteYamlConfig | guoba.support.js:58-91 | a write that does not throw always succeeds and stores the joined new lines; a missing file becomes one line |
| LegacyEditor.WriteLines | guoba.support.js:62-86 | the written file has the same lines, or one more at the end, and only matching lines differ |
| LegacyEditor.WriteTwiceNoOp | guoba.support.js:58-91 | writing the same value twice gives the same file as writing it once |
| LegacyEditor.RewriteFixed | guoba.support.js:69-81 | lines already holding the value are left unchanged |
| LegacyEditor.NewLineIndent | guoba.support.js:71 | a rewritten line keeps the old indentation and starts with `key:` |
| LegacyEditor.NewLineComment | guoba.support.js:72-75 | a rewritten line keeps the comment the old line had |
| LegacyEditor.Unquote | guoba.support.js:31 | text in quotes loses exactly its outer quotes; other text is unchanged |
| LegacyEditor.ClassifyRaw | guoba.support.js:30-34 | quoted text is a string before anything else; `true` and `false` become booleans and integer text a number |
| LegacyEditor.LazyEnd | guoba.support.js:28 | without the multiline flag, the lazy group ends only at blanks then `#` or at the end of the whole text, and fails at an earlier line break |
| LegacyEditor.MatchAt | guoba.support.js:28 | a match at a position needs `key:` there and captures no line break |
| LegacyEditor.Fallback | guoba.support.js:28-29 | the unanchored regex matches iff some position yields a match |
| LegacyEditor.FallbackLeftmost | guoba.support.js:28-29 | the value is the one matched at the first position where the regex matches; no earlier position matches |
| LegacyEditor.ScanLines | guoba.support.js:41-51 | the scan answers iff some line starts with `key:`, with that line's text after the first colon, trimmed and unquoted |
| LegacyEditor.FirstSelected | guoba.support.js:42-43 | the index found is the first line whose trimmed text starts with `key:` |
| LegacyEditor.ScanLinesFirst | guoba.support.js:41-51 | the scan answers with the first such line, not any later one |
| LegacyEditor.ReadYamlConfig | guoba.support.js:18-56 | a parsed document gives the key's value, else its first key's value (a string document's first character), else the line scan, else the default; an unparsable file uses the regex fallback |
| Values.FirstOwnValueIsProperty | guoba.support.js:38-40 | the value under the first key `Object.keys` lists is what reading that key gives, for strings, arrays and mappings |
| LegacyEditor.StringDocumentAnswers | guoba.support.js:38-40 | a document that parses to a non-empty string never reaches the line scan: a key it lacks reads the value under its first key `"0"` |
| LegacyEditor.StringDocumentFirstChar | guoba.support.js:38-40 | the file `abc` read for the key `LFTCK` answers `a` |
| LegacyEditor.FormatReadBack | guoba.support.js:30-34 | a formatted scalar reads back as itself |
| LegacyEditor.QuotingDiffers | guoba.support.js:73 | the two editors disagree on the string `"true"`: the newer one reads back a boolean, the older one a string |
| LegacyEditor.NewFileReadBack | guoba.support.js:82-86 | a value written to a new file reads back through the fallback |
| LegacyEditor.FallbackMissesInnerLine | guoba.support.js:28 | a key on a line followed by more lines is not found by the fallback |
| LegacyEditor.FallbackStopsAtComment | guoba.support.js:28 | the fallback value stops before a comment |
| LegacyEditor.ScanReadsWritten | guoba.support.js:41-51 | after a string is written with comments removed, the line scan reads that string back |
| LegacyEditor.FirstKeyAnswers | guoba.support.js:39-40 | a parsed document without the key answers with its first key's value |
| LegacyEditor.Store | guoba.support.js:86 | a write that produced text replaces the file; otherwise the files are unchanged |
| LegacyEditor.WriteOne | guoba.support.js:58-91 | one write succeeds iff the file is writable |
| LegacyEditor.WriteAll | guoba.support.js:364-394 | each result is true iff its file is writable, and unwritable files are unchanged |
| LegacyEditor.WriteAllAppend | guoba.support.js:364-394 | a run of writes is the first part followed by the rest |
| LegacyEditor.SelectedExclusive | guoba.support.js:70 | a line never selects two different colon-free keys |
| LegacyEditor.WritePreservesOther | guoba.support.js:69-85 | writing one key keeps every other key's line present |
| LegacyEditor.WriteAllKeeps | guoba.support.js:364-394 | a key line present before the panel writes is still present after them |
| LegacyEditor.WriteAllPresent | guoba.support.js:364-394 | after the panel writes, every key written to a writable file has its line |
| LegacyEditor.SaveAll | guoba.support.js:364-395 | the save reports success iff every file was writable |
| LegacyEditor.PanelSaved | guoba.support.js:363-396 | after `setConfigData`, every panel key in a writable file has a line |
| LegacyEditor.PanelKeysPlain | guoba.support.js:365-393 | no panel key contains a colon, a line break or a leading blank |
| LegacyEditor.PanelKeysWord | guoba.support.js:365-393 | every key the panel writes consists of ASCII letters, digits and `_`, so no regular-expression metacharacter is spliced into the readers' patterns |
| LegacyEditor.PanelTable | guoba.support.js:364-394 | the panel writes 29 keys, and only `LFTCK` removes comments |
| LegacyEditor.CookieKeyOnce | guoba.support.js:388 | `LFTCK` is written exactly once |
| HelpTheme.TrimIntegerText | apps/help/toolhelp.js:27 | the decimal text of an integer has no surrounding blanks |
| HelpTheme.IconTextNumber | apps/help/toolhelp.js:27 | `icon * 1` on an integer's text gives that integer |
| HelpTheme.RadixDigit | apps/help/toolhelp.js:60-61 | a character is a decimal digit iff its digit value is below ten |
| HelpTheme.DigitRun | apps/help/toolhelp.js:60-61 | `parseInt` reads the longest run of digits valid in the radix |
| HelpTheme.ParseRun | apps/help/toolhelp.js:60-61 | a parsed digit run is never negative |
| HelpTheme.DecimalRadixValue | apps/help/toolhelp.js:60-61 | the radix-ten reading of a digit run is its decimal value |
| HelpTheme.ParseRunDigits | apps/help/toolhelp.js:60-61 | a digit run followed by a non-digit parses to that run's value |
| HelpTheme.ParseUnsignedDigits | apps/help/toolhelp.js:60-61 | unsigned text whose digits are not followed by a hex marker parses as decimal |
| HelpTheme.MinusSign | apps/help/toolhelp.js:60-61 | a leading `-` negates the parsed value |
| HelpTheme.PlusSign | apps/help/toolhelp.js:60-61 | a leading `+` is skipped |
| HelpTheme.NoSign | apps/help/toolhelp.js:60-61 | unsigned text parses as unsigned |
| HelpTheme.ParseIntegerText | apps/help/toolhelp.js:60-61 | signed integer text parses to its value, whatever non-digit text follows |
| HelpTheme.ParseIntLeading | apps/help/toolhelp.js:60-61 | `parseInt` of a string with a leading integer gives that integer |
| HelpTheme.ParseIntNumber | apps/help/toolhelp.js:60-61 | `parseInt` of an integer gives it back |
| HelpTheme.UndefinedIsNaN | apps/help/toolhelp.js:60-61 | `parseInt(undefined)` is `NaN`, so the default applies |
| HelpTheme.Rem10 | apps/help/toolhelp.js:31 | `%` truncates: the remainder has the dividend's sign and differs from it by a multiple of ten |
| HelpTheme.IconCell | apps/help/toolhelp.js:31-32 | the icon number is ten times the row plus the column plus one; positive icons land in columns 0 to 9 |
| HelpTheme.IconCellUnique | apps/help/toolhelp.js:31-32 | every sprite cell belongs to exactly one icon number |
| HelpTheme.IconHidden | apps/help/toolhelp.js:27-29 | an icon is hidden iff its number is falsy |
| HelpTheme.IconCssInjective | apps/help/toolhelp.js:27-33 | two positive icons with the same CSS are the same icon |
| HelpTheme.PositionText | apps/help/toolhelp.js:31-33 | a positive icon's CSS is the background position of its cell, at 50 pixels a cell |
| HelpTheme.PositionInjective | apps/help/toolhelp.js:33 | different offsets never print the same background position |
| HelpTheme.ThemeLayout | apps/help/toolhelp.js:60-62 | the column count lies in 2 to 5 with default 3, the column width in 100 to 500 with default 265, and the page width is the clamped total |
| HelpTheme.DefaultLayout | apps/help/toolhelp.js:60-62 | an empty configuration gives 3 columns of 265 pixels on an 825-pixel page |
| HelpTheme.Extend | apps/help/toolhelp.js:59 | `_.extend` gives an object with distinct keys |
| HelpTheme.ExtendLookup | apps/help/toolhelp.js:59 | a key the custom style has comes from it, and any other key from the system style |
| HelpTheme.ThemeDataPrefersCustom | apps/help/toolhelp.js:58-62 | the custom style's column settings override the system style's |
| HelpTheme.GetDef | apps/help/toolhelp.js:89-93 | `getDef` returns the first argument that is not undefined, and undefined when there is none |
| HelpTheme.GetDefFirst | apps/help/toolhelp.js:89-93 | when the first defined argument is at a position, that argument is the answer |
| HelpTheme.StyleValue | apps/help/toolhelp.js:64-74 | a style comes from the theme, else the custom style, else the system style, else the default |
| HelpTheme.BlurOff | apps/help/toolhelp.js:79 | the blur filter is `none` iff the custom style sets `bgBlur` to `false` |
| HelpTheme.BlurDefault | apps/help/toolhelp.js:79 | with no blur setting anywhere, the filter is `blur(3px)` |
| AppLoader.IdentifierPlain | index.js:28-33 | an identifier contains no `/` and no `\` |
| AppLoader.IdentifierOfPath | index.js:28-33 | the identifier of `apps/d1/…/name.js` is `d1.….name`, for either separator |
| AppLoader.IdentifierParts | index.js:28-33 | for dot-free names, splitting the identifier at dots gives back the directories and the stem |
| AppLoader.IdentifierCollision | index.js:28-33 | `a/b.js` and `a.b.js` share the identifier `a.b` |
| AppLoader.Walk | index.js:17-43 | the walk fails iff some directory in the tree is unreadable; it records exactly the `.js` regular files, each under its own path with its derived identifier |
| AppLoader.WalkEntry | index.js:21-40 | one entry yields its own file, or its subtree's files, or nothing |
| AppLoader.WalkAppend | index.js:21-40 | walking two lists of entries in turn gives the two results joined, and fails if either fails |
| AppLoader.WalkDir | index.js:22-26 | a readable directory contributes the walk of its children at the joined path |
| AppLoader.FirstName | index.js:54 | the first key of a module namespace is present and precedes every other key in code-unit order |
| AppLoader.ExportPick | index.js:52-54 | a truthy `default` export is registered; otherwise the export whose name sorts first is, and none when there are no exports |
| AppLoader.RegisteredIff | index.js:48-63 | an identifier is registered iff some file with that identifier imported successfully |
| AppLoader.LastSettledWins | index.js:56 | when no later import shares an identifier, that identifier holds the last successful import's pick |
| AppLoader.LoadModules | index.js:48-65 | every file counts as one success or one failure; successes equal registrations; the registry holds distinct identifiers, each bound to the last settled export |
| AppLoader.Settle | index.js:49-62 | one settled import extends the registry and the counts by exactly its own outcome |
| AppLoader.Listed | index.js:45-46 | the listing succeeds iff the directory tree is readable, and yields one record per `.js` file |
| AppLoader.Startup | index.js:45-69 | a failed walk leaves an empty registry and zero counts; otherwise every file found is counted once and the registry is as `LoadModules` states |

## Left out

- YAML parsing and serialisation. A document is a parsed `Value`, and parse failure is a
  parameter of the two editors' readers. `Store.GetYaml` assumes every file on disk parses
  (`WfFiles`); the `getYaml` of the code throws on malformed YAML, and that throw is not modelled. `YamlReader`'s `set` is modelled as a top-level upsert, because
  `components/YamlReader.js` is not part of this model.
- File-system I/O, `mkdir` and chokidar. Files are a map, and a change event is a call to
  `Store.OnChange`. The `Bot` global is the `botLoaded` parameter. `modifyWebSocket` is an
  append to a log of sent targets. Its rejections are not modelled.
- Floating point. Numbers are integers. Only integer text is classified as a number, and
  fractional, exponent, hexadecimal and `Infinity` text counts as `NaN`. `String(n)` is modelled
  for integers only, not for values beyond 2^53 printed in exponent form. The `100/colCount` CSS
  width is not modelled.
- The timing line of `index.js` (the `Date.now` difference and `toFixed`). The log messages are
  not modelled either.
- Concurrency. The order in which the imports settle is the `order` parameter, and the importer
  is the `Importer` parameter. Each import settles atomically.
- Store.OnChange: handles one change event as a single step. The handler awaits
  `modifyWebSocket` once per target (components/Config.js:100), so two overlapping change events
  can interleave their sends and the second can find the snapshot already deleted; that
  interleaving is not modelled.
- Inherited properties. Reading a key such as `constructor` or `toString` from a parsed object
  gives a function from `Object.prototype` in the code (components/Config.js:177, and `parsed[key]`
  in both readers), so `findDifference` would recurse into it. In the model a key an object does
  not own reads as undefined.
- Property reads on string primitives outside the two readers. `Values.Property` gives a string
  its `length` and its index properties for `readYamlConfig`; `findDifference`, the `servers`
  lookups and the help-page style lookups read no property of a string. Indices count characters,
  not UTF-16 code units.
- Regular-expression keys. The code splices the key into a regular expression
  (guoba/utils.js:31 and 66, guoba.support.js:28), so a key such as `a.b` also matches `axb:`.
  LineEditor.FallbackMatch, LineEditor.FirstKeyLine and LegacyEditor.Fallback match the key as
  literal text. The two agree for keys without regular-expression metacharacters, such as the
  settings panel's keys, which are ASCII letters, digits and `_` (`LegacyEditor.PanelKeysWord`).
- JavaScript's ordering of integer-like keys before other keys. Objects keep insertion order.
- `getCfg`, `getDefOrConfig` and `modifyarr`. They are thin wrappers over `getYaml` and
  `YamlReader` operations, which are not part of this model.
- The CSS string assembly in `getThemeData` and the `Render` call. Only the values put into the
  CSS are modelled: layout numbers, icon positions and style values.
- The settings panel's schema tables and `getConfigData`. Of the panel, only `setConfigData`
  is modelled.
- CRLF line endings. The editors split on `\n` only, as the code does.
- String primitives in `findDifference`. A `for…in` over a string's indices is not modelled, so
  strings have no keys in the model.
- DiffAtKey: states the entry for keys that are non-empty and dot-free. A key containing a dot
  can collide with a nested path, which the report then cannot tell apart.
- JoinPath: concatenates the directory, the separator and the name. `path.join` also normalises
  `..` and doubled separators. The two agree for a normalised directory and plain entry names.
- FirstName: compares strings by character, but JavaScript sorts by UTF-16 code unit. The two
  orders differ only for characters above U+FFFF against U+E000 to U+FFFF.
- ExportPick: exports are `Value`s. Functions and classes are truthy objects.
- LoadModules: requires only that the settle order is in range, which is weaker than a
  permutation of the files. `Startup` passes a permutation.
- Store.DelServersArr: when no server matches, the model deletes nothing.
  `YamlReader.delete('servers.-1')` is not part of this model.
