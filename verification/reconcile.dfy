/** The reconciler in the `change` handler of `Config.watch` (components/Config.js): every entry of
    the difference report whose path starts with the segment `servers` becomes a target
    `{ type, data }` handed to the WebSocket layer, in report order. */
module Reconcile {
  import opened Wrappers
  import opened Text
  import opened Dict
  import opened Values
  import opened Diff

  /** `target.type`: `Untyped` is the `null` the target starts with when no rule matches. */
  datatype Action = Add | Del | Close | Open | Untyped

  datatype Target = Target(kind: Action, data: Option<Value>)

  /** What a run of the handler's loop dispatched before it finished or threw. */
  datatype Run = Run(sent: seq<Target>, error: Option<Failure>)

  /** The first-match rule table. The rules exclude one another, so each kind is characterised on
      its own, whatever rules precede it. */
  function Classify(c: Change): (a: Action)
    ensures a == Add <==> TypeofObject(c.newValue) && c.oldValue.None?
    ensures a == Del <==> c.newValue.None? && TypeofObject(c.oldValue)
    ensures a == Close <==> c.newValue == Some(Bool(true)) && (c.oldValue == Some(Bool(false)) || c.oldValue.None?)
    ensures a == Open <==> c.newValue == Some(Bool(false)) && (c.oldValue == Some(Bool(true)) || c.oldValue.None?)
  {
    if TypeofObject(c.newValue) && c.oldValue.None? then Add
    else if c.newValue.None? && TypeofObject(c.oldValue) then Del
    else if c.newValue == Some(Bool(true)) && (c.oldValue == Some(Bool(false)) || c.oldValue.None?) then Close
    else if c.newValue == Some(Bool(false)) && (c.oldValue == Some(Bool(true)) || c.oldValue.None?) then Open
    else Untyped
  }

  /** `key.split('.')[0] === 'servers'`. */
  predicate Dispatched(e: Entry<Change>) {
    Split(e.key, '.')[0] == "servers"
  }

  /** `arr[1]` used as a property key: a path without a second segment reads the key `"undefined"`. */
  function ServerName(path: string): (name: string)
    ensures '.' !in name
  {
    var segs := Split(path, '.');
    if |segs| > 1 then segs[1] else "undefined"
  }

  /** `cfg.servers[name]`: reading a property of a nullish `cfg` or of a nullish `cfg.servers` throws. */
  function ReadServer(cfg: Option<Value>, name: string): (r: Result<Option<Value>, Failure>)
    ensures r.Err? <==> Nullish(cfg) || Nullish(Member(cfg.value, "servers"))
    ensures r.Err? ==> r.error == TypeError
    ensures r.Ok? ==> r.value == Member(Member(cfg.value, "servers").value, name)
  {
    if Nullish(cfg) then Err(TypeError)
    else
      var servers := Member(cfg.value, "servers");
      if Nullish(servers) then Err(TypeError) else Ok(Member(servers.value, name))
  }

  /** `data`: the entry of the new tree, falling back to the old tree's when the new one is
      `undefined`. The old tree is not read when the new one has the entry. */
  function ServerData(oldCfg: Option<Value>, newCfg: Option<Value>, name: string): (r: Result<Option<Value>, Failure>)
    ensures ReadServer(newCfg, name).Ok? && ReadServer(newCfg, name).value.Some? ==> r == ReadServer(newCfg, name)
    ensures ReadServer(newCfg, name) == Ok(None) ==> r == ReadServer(oldCfg, name)
    ensures ReadServer(newCfg, name).Err? ==> r.Err?
  {
    match ReadServer(newCfg, name)
    case Err(f) => Err(f)
    case Ok(None) => ReadServer(oldCfg, name)
    case Ok(d) => Ok(d)
  }

  /** The entries the loop acts on, in report order. */
  function ServerEntries(report: Report): (es: Report)
    ensures |es| <= |report|
  {
    if |report| == 0 then []
    else if Dispatched(report[0]) then [report[0]] + ServerEntries(report[1..])
    else ServerEntries(report[1..])
  }

  /** The target built for one `servers` entry, or the failure reading its data raises. */
  function TargetFor(e: Entry<Change>, oldCfg: Option<Value>, newCfg: Option<Value>): Result<Target, Failure> {
    match ServerData(oldCfg, newCfg, ServerName(e.key))
    case Err(f) => Err(f)
    case Ok(d) => Ok(Target(Classify(e.val), d))
  }

  /** The `for…in` loop over the report: one target per `servers` entry (also an untyped one), until
      reading a server entry throws; targets sent before the throw stay sent. */
  function Dispatch(report: Report, oldCfg: Option<Value>, newCfg: Option<Value>): (r: Run)
    ensures |r.sent| <= |ServerEntries(report)|
    ensures r.error.Some? ==> r.error.value == TypeError
    ensures r.error.None? ==> |r.sent| == |ServerEntries(report)|
    ensures forall i | 0 <= i < |r.sent| :: TargetFor(ServerEntries(report)[i], oldCfg, newCfg) == Ok(r.sent[i])
  {
    if |report| == 0 then Run([], None)
    else if !Dispatched(report[0]) then Dispatch(report[1..], oldCfg, newCfg)
    else
      match TargetFor(report[0], oldCfg, newCfg)
      case Err(f) => Run([], Some(f))
      case Ok(t) =>
        var rest := Dispatch(report[1..], oldCfg, newCfg);
        DispatchCons(report, oldCfg, newCfg, t, rest);
        Run([t] + rest.sent, rest.error)
  }

  /** One dispatched entry in front of the rest of the run. */
  lemma DispatchCons(report: Report, oldCfg: Option<Value>, newCfg: Option<Value>, t: Target, rest: Run)
    requires |report| > 0 && Dispatched(report[0]) && TargetFor(report[0], oldCfg, newCfg) == Ok(t)
    requires |rest.sent| <= |ServerEntries(report[1..])|
    requires forall i | 0 <= i < |rest.sent| :: TargetFor(ServerEntries(report[1..])[i], oldCfg, newCfg) == Ok(rest.sent[i])
    ensures |ServerEntries(report)| == 1 + |ServerEntries(report[1..])|
    ensures forall i | 0 <= i < 1 + |rest.sent| :: TargetFor(ServerEntries(report)[i], oldCfg, newCfg) == Ok(([t] + rest.sent)[i])
  {
    var es := ServerEntries(report);
    var es' := ServerEntries(report[1..]);
    assert es == [report[0]] + es';
    var sent := [t] + rest.sent;
    forall i | 0 <= i < 1 + |rest.sent|
      ensures TargetFor(es[i], oldCfg, newCfg) == Ok(sent[i])
    {
      if i > 0 {
        assert sent[i] == rest.sent[i - 1] && es[i] == es'[i - 1];
      }
    }
  }

  /** A failed run stops at the first `servers` entry whose data read throws: the entries before
      it were all sent (the `Dispatch` contract), and reading the one right after them fails. */
  lemma {:induction false} DispatchStopsAtFailure(report: Report, oldCfg: Option<Value>, newCfg: Option<Value>)
    ensures var r := Dispatch(report, oldCfg, newCfg);
      r.error.Some? ==>
        |r.sent| < |ServerEntries(report)| && TargetFor(ServerEntries(report)[|r.sent|], oldCfg, newCfg).Err?
  {
    if |report| > 0 {
      DispatchStopsAtFailure(report[1..], oldCfg, newCfg);
      if !Dispatched(report[0]) {
        StopsSkipped(report, oldCfg, newCfg);
      } else if TargetFor(report[0], oldCfg, newCfg).Err? {
        StopsHere(report, oldCfg, newCfg);
      } else {
        StopsLater(report, oldCfg, newCfg);
      }
    }
  }

  predicate StopsAtFailure(report: Report, oldCfg: Option<Value>, newCfg: Option<Value>) {
    var r := Dispatch(report, oldCfg, newCfg);
    r.error.Some? ==>
      |r.sent| < |ServerEntries(report)| && TargetFor(ServerEntries(report)[|r.sent|], oldCfg, newCfg).Err?
  }

  lemma StopsSkipped(report: Report, oldCfg: Option<Value>, newCfg: Option<Value>)
    requires |report| > 0 && !Dispatched(report[0]) && StopsAtFailure(report[1..], oldCfg, newCfg)
    ensures StopsAtFailure(report, oldCfg, newCfg)
  {
    assert ServerEntries(report) == ServerEntries(report[1..]);
  }

  lemma StopsHere(report: Report, oldCfg: Option<Value>, newCfg: Option<Value>)
    requires |report| > 0 && Dispatched(report[0]) && TargetFor(report[0], oldCfg, newCfg).Err?
    ensures StopsAtFailure(report, oldCfg, newCfg)
  {
    assert ServerEntries(report)[0] == report[0];
  }

  lemma StopsLater(report: Report, oldCfg: Option<Value>, newCfg: Option<Value>)
    requires |report| > 0 && Dispatched(report[0]) && TargetFor(report[0], oldCfg, newCfg).Ok?
    requires StopsAtFailure(report[1..], oldCfg, newCfg)
    ensures StopsAtFailure(report, oldCfg, newCfg)
  {
    var rest := Dispatch(report[1..], oldCfg, newCfg);
    var t := TargetFor(report[0], oldCfg, newCfg).value;
    assert Dispatch(report, oldCfg, newCfg) == Run([t] + rest.sent, rest.error);
    if rest.error.Some? {
      EntriesShift(report, |rest.sent|);
    }
  }

  /** Behind a `servers` entry, the rest's entries follow one place further on. */
  lemma EntriesShift(report: Report, n: nat)
    requires |report| > 0 && Dispatched(report[0]) && n < |ServerEntries(report[1..])|
    ensures 1 + n < |ServerEntries(report)| && ServerEntries(report)[1 + n] == ServerEntries(report[1..])[n]
  {
    assert ServerEntries(report) == [report[0]] + ServerEntries(report[1..]);
  }

  /** The entries acted on are exactly the report's entries whose first segment is `servers`. */
  lemma {:induction false} ServerEntriesMembers(report: Report, e: Entry<Change>)
    ensures e in ServerEntries(report) <==> e in report && Dispatched(e)
  {
    if |report| > 0 {
      ServerEntriesMembers(report[1..], e);
      assert report == [report[0]] + report[1..];
    }
  }

  /** The loop fails exactly when building the target of some `servers` entry fails. */
  lemma {:induction false} DispatchFails(report: Report, oldCfg: Option<Value>, newCfg: Option<Value>)
    ensures Dispatch(report, oldCfg, newCfg).error.Some? <==>
      exists e | e in ServerEntries(report) :: TargetFor(e, oldCfg, newCfg).Err?
  {
    if |report| > 0 {
      DispatchFails(report[1..], oldCfg, newCfg);
      if Dispatched(report[0]) {
        assert ServerEntries(report) == [report[0]] + ServerEntries(report[1..]);
        FailsCons(report[0], ServerEntries(report[1..]), oldCfg, newCfg);
      }
    }
  }

  lemma FailsCons(x: Entry<Change>, es: Report, oldCfg: Option<Value>, newCfg: Option<Value>)
    ensures (exists e | e in [x] + es :: TargetFor(e, oldCfg, newCfg).Err?) <==>
      TargetFor(x, oldCfg, newCfg).Err? || exists e | e in es :: TargetFor(e, oldCfg, newCfg).Err?
  {
    assert forall e | e in es :: e in [x] + es;
    assert x in [x] + es;
  }

  /** A report without `servers` entries dispatches nothing. */
  lemma {:induction false} DispatchNothing(report: Report, oldCfg: Option<Value>, newCfg: Option<Value>)
    requires forall e | e in report :: !Dispatched(e)
    ensures Dispatch(report, oldCfg, newCfg) == Run([], None)
  {
    if |report| > 0 {
      assert report[0] in report;
      assert forall e | e in report[1..] :: e in report;
      DispatchNothing(report[1..], oldCfg, newCfg);
    }
  }

  /** A changed boolean on a server, such as its `close` switch, is classified by its new value:
      switched on closes, switched off opens. */
  lemma ClassifySwitch(b: bool)
    ensures Classify(Change(Some(Bool(!b)), Some(Bool(b)))) == (if b then Close else Open)
  {
  }

  /** A server entry only the new tree has is an addition; one only the old tree had is a removal;
      `null` counts as an object on either side. */
  lemma ClassifyAppearing(v: Value)
    ensures Classify(Change(None, Some(v))) ==
      if v.Null? || v.Arr? || v.Obj? then Add
      else if v == Bool(true) then Close
      else if v == Bool(false) then Open
      else Untyped
    ensures Classify(Change(Some(v), None)) == if v.Null? || v.Arr? || v.Obj? then Del else Untyped
  {
  }

  /** A value replaced by another is neither an addition nor a removal, even when one side is `null`
      or a mapping: only a boolean flip has a type. */
  lemma ClassifyReplaced(before: Value, after: Value)
    ensures Classify(Change(Some(before), Some(after))) ==
      if after == Bool(true) && before == Bool(false) then Close
      else if after == Bool(false) && before == Bool(true) then Open
      else Untyped
  {
  }
}
