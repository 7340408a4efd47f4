/** `findDifference` (components/Config.js): a flat report, keyed by dotted path, of what differs
    between the previous and the current tree. Keys of the first tree are visited first: where both
    sides hold objects the walk descends, otherwise a value that is not deep-equal is reported. Keys
    only the second tree owns are then reported whole, without descending. */
module Diff {
  import opened Wrappers
  import opened Text
  import opened Dict
  import opened Values

  /** `{ oldValue, newValue }`; `None` is `undefined`. */
  datatype Change = Change(oldValue: Option<Value>, newValue: Option<Value>)

  /** The returned object: dotted paths in insertion order. */
  type Report = seq<Entry<Change>>

  /** What `parentKey` contributes to a child's path: nothing at the top (an empty `parentKey` is falsy). */
  function Prefix(parent: string): string {
    if parent == "" then "" else parent + "."
  }

  /** `parentKey ? `${parentKey}.${key}` : key`. */
  function JoinKey(parent: string, key: string): string {
    Prefix(parent) + key
  }

  predicate Under(p: string, parent: string) {
    StartsWith(p, Prefix(parent))
  }

  /** Every entry records a real change (`oldValue` not deep-equal to `newValue`) and sits below `parent`. */
  predicate Sound(r: Report, parent: string) {
    forall e | e in r :: !EqualOpt(e.val.oldValue, e.val.newValue) && Under(e.key, parent)
  }

  /** The assignments `findDifference(obj1, obj2, parentKey)` performs on `diff`, in order: those of
      the first loop, then those of the second. */
  function Writes(o1: Value, o2: Value, parent: string): Report
    decreases o1, 3
  {
    OwnWrites(o1, o2, parent, 0) + AddedWrites(o1, o2, parent, 0)
  }

  /** The first loop, from the `i`-th key of `obj1` on. */
  function OwnWrites(o1: Value, o2: Value, parent: string, i: nat): Report
    requires i <= KeyCount(o1)
    decreases o1, 2, KeyCount(o1) - i
  {
    if i == KeyCount(o1) then [] else StepWrites(o1, o2, parent, i) + OwnWrites(o1, o2, parent, i + 1)
  }

  /** One iteration of the first loop: when both sides are objects (`_.isObject`) the nested report
      is copied in with `Object.assign`, entry by entry; otherwise the pair is recorded when it is
      not `_.isEqual`. */
  function StepWrites(o1: Value, o2: Value, parent: string, i: nat): Report
    requires i < KeyCount(o1)
    decreases o1, 1
  {
    var k := KeyAt(o1, i);
    var v1 := ChildAt(o1, i);
    var v2 := Member(o2, k);
    if IsObject(v1) && IsObjectOpt(v2) then DiffCore(v1, v2.value, JoinKey(parent, k))
    else if !EqualOpt(Some(v1), v2) then [Entry(JoinKey(parent, k), Change(Some(v1), v2))]
    else []
  }

  /** The second loop, from the `j`-th key of `obj2` on: a key `obj1` does not own is recorded with
      `oldValue` undefined and its whole value as `newValue`. */
  function AddedWrites(o1: Value, o2: Value, parent: string, j: nat): Report
    requires j <= KeyCount(o2)
    decreases KeyCount(o2) - j
  {
    if j == KeyCount(o2) then [] else AddedHead(o1, o2, parent, j) + AddedWrites(o1, o2, parent, j + 1)
  }

  /** The assignment the second loop makes for the `j`-th key of `obj2`, if any. */
  function AddedHead(o1: Value, o2: Value, parent: string, j: nat): Report
    requires j < KeyCount(o2)
  {
    var k := KeyAt(o2, j);
    if HasOwn(o1, k) then [] else [Entry(JoinKey(parent, k), Change(None, Some(ChildAt(o2, j))))]
  }

  lemma AddedUnfold(o1: Value, o2: Value, parent: string, j: nat)
    requires j < KeyCount(o2)
    ensures AddedWrites(o1, o2, parent, j) == AddedHead(o1, o2, parent, j) + AddedWrites(o1, o2, parent, j + 1)
  {
  }

  /** `findDifference(obj1, obj2, parentKey)` once both operands are known to be non-nullish: the
      object `{}` after all of its assignments. What it guarantees is stated by `CoreGood`. */
  function DiffCore(o1: Value, o2: Value, parent: string): Report
    decreases o1, 4
  {
    AssignAll([], Writes(o1, o2, parent))
  }

  predicate Good(r: Report, parent: string) {
    Sound(r, parent) && DistinctKeys(r)
  }

  /** Every path reported lies below `parentKey`, records a real change, and is reported once. */
  lemma {:induction false} CoreGood(o1: Value, o2: Value, parent: string)
    ensures Good(DiffCore(o1, o2, parent), parent)
    decreases o1, 4
  {
    OwnSound(o1, o2, parent, 0);
    AddedSound(o1, o2, parent, 0);
    var w := Writes(o1, o2, parent);
    SoundConcat(OwnWrites(o1, o2, parent, 0), AddedWrites(o1, o2, parent, 0), parent);
    var r := AssignAll([], w);
    assert forall e | e in r :: e in w;
  }

  lemma SoundConcat(a: Report, b: Report, parent: string)
    requires Sound(a, parent) && Sound(b, parent)
    ensures Sound(a + b, parent)
  {
    assert forall e | e in a + b :: e in a || e in b;
  }

  lemma {:induction false} OwnSound(o1: Value, o2: Value, parent: string, i: nat)
    requires i <= KeyCount(o1)
    ensures Sound(OwnWrites(o1, o2, parent, i), parent)
    decreases o1, 2, KeyCount(o1) - i
  {
    if i < KeyCount(o1) {
      StepSound(o1, o2, parent, i);
      OwnSound(o1, o2, parent, i + 1);
      OwnSoundCons(o1, o2, parent, i);
    }
  }

  lemma OwnSoundCons(o1: Value, o2: Value, parent: string, i: nat)
    requires i < KeyCount(o1)
    requires Sound(StepWrites(o1, o2, parent, i), parent) && Sound(OwnWrites(o1, o2, parent, i + 1), parent)
    ensures Sound(OwnWrites(o1, o2, parent, i), parent)
  {
    OwnUnfold(o1, o2, parent, i);
    SoundConcat(StepWrites(o1, o2, parent, i), OwnWrites(o1, o2, parent, i + 1), parent);
  }

  lemma {:induction false} StepSound(o1: Value, o2: Value, parent: string, i: nat)
    requires i < KeyCount(o1)
    ensures Sound(StepWrites(o1, o2, parent, i), parent)
    decreases o1, 1
  {
    var k := KeyAt(o1, i);
    var v1 := ChildAt(o1, i);
    var v2 := Member(o2, k);
    if IsObject(v1) && IsObjectOpt(v2) {
      CoreGood(v1, v2.value, JoinKey(parent, k));
      SoundWiden(DiffCore(v1, v2.value, JoinKey(parent, k)), parent, k);
    } else if !EqualOpt(Some(v1), v2) {
      JoinUnder(parent, k);
    }
  }

  lemma {:induction false} AddedSound(o1: Value, o2: Value, parent: string, j: nat)
    requires j <= KeyCount(o2)
    ensures Sound(AddedWrites(o1, o2, parent, j), parent)
    decreases KeyCount(o2) - j
  {
    if j < KeyCount(o2) {
      AddedSound(o1, o2, parent, j + 1);
      AddedSoundCons(o1, o2, parent, j);
    }
  }

  lemma AddedSoundCons(o1: Value, o2: Value, parent: string, j: nat)
    requires j < KeyCount(o2) && Sound(AddedWrites(o1, o2, parent, j + 1), parent)
    ensures Sound(AddedWrites(o1, o2, parent, j), parent)
  {
    JoinUnder(parent, KeyAt(o2, j));
    AddedUnfold(o1, o2, parent, j);
    SoundConcat(AddedHead(o1, o2, parent, j), AddedWrites(o1, o2, parent, j + 1), parent);
  }

  /** `findDifference(obj1, obj2)` at the top. Reading `obj2[key]` for a key of `obj1`, or asking
      whether a nullish `obj1` owns a key of `obj2`, throws; `for…in` over a nullish operand visits nothing. */
  function FindDifference(o1: Option<Value>, o2: Option<Value>): (r: Result<Report, Failure>)
    ensures r.Err? <==>
      (!Nullish(o1) && KeyCount(o1.value) > 0 && Nullish(o2)) ||
      (Nullish(o1) && !Nullish(o2) && KeyCount(o2.value) > 0)
    ensures r.Err? ==> r.error == TypeError
    ensures r.Ok? ==> Sound(r.value, "") && DistinctKeys(r.value)
    ensures r.Ok? && (Nullish(o1) || Nullish(o2)) ==> r.value == []
  {
    if Nullish(o1) && Nullish(o2) then Ok([])
    else if Nullish(o2) then (if KeyCount(o1.value) > 0 then Err(TypeError) else Ok([]))
    else if Nullish(o1) then (if KeyCount(o2.value) > 0 then Err(TypeError) else Ok([]))
    else
      CoreGood(o1.value, o2.value, "");
      Ok(DiffCore(o1.value, o2.value, ""))
  }

  // ---------------------------------------------------------------------------------------------
  // Paths

  lemma JoinUnder(parent: string, k: string)
    ensures Under(JoinKey(parent, k), parent)
  {
    assert JoinKey(parent, k)[..|Prefix(parent)|] == Prefix(parent);
  }

  /** A path below a child's path is below the parent's. */
  lemma UnderJoin(p: string, parent: string, k: string)
    requires Under(p, JoinKey(parent, k))
    ensures Under(p, parent)
  {
    var q := Prefix(JoinKey(parent, k));
    if JoinKey(parent, k) != "" {
      assert q == Prefix(parent) + k + ".";
      assert p[..|Prefix(parent)|] == q[..|Prefix(parent)|];
    }
  }

  lemma SoundWiden(d: Report, parent: string, k: string)
    requires Sound(d, JoinKey(parent, k))
    ensures Sound(d, parent)
  {
    forall e | e in d ensures Under(e.key, parent) {
      UnderJoin(e.key, parent, k);
    }
  }

  /** The paths iteration `i` of the first loop may write: its own path and, when that is not
      empty, the paths below it. */
  predicate Touches(p: string, parent: string, k: string) {
    JoinKey(parent, k) == "" || p == JoinKey(parent, k) || StartsWith(p, JoinKey(parent, k) + ".")
  }

  lemma JoinInjective(parent: string, a: string, b: string)
    requires JoinKey(parent, a) == JoinKey(parent, b)
    ensures a == b
  {
    assert a == JoinKey(parent, a)[|Prefix(parent)|..];
    assert b == JoinKey(parent, b)[|Prefix(parent)|..];
  }

  /** The path of a dot-free key is written by no iteration for a different non-empty key. */
  lemma SiblingUntouched(parent: string, km: string, kj: string)
    requires km != kj && kj != "" && '.' !in km
    ensures !Touches(JoinKey(parent, km), parent, kj)
  {
    if JoinKey(parent, km) == JoinKey(parent, kj) {
      JoinInjective(parent, km, kj);
    }
    var s := JoinKey(parent, km);
    var t := JoinKey(parent, kj) + ".";
    if |t| <= |s| {
      assert s[|t| - 1] == km[|kj|];
      assert km[|kj|] != '.';
      assert s[..|t|][|t| - 1] != t[|t| - 1];
    }
  }

  // ---------------------------------------------------------------------------------------------
  // What the report says

  /** A path outside `fk` and the paths below it is not in a report that stays below `fk`. */
  lemma OutsideSound(d: Report, fk: string, p: string)
    requires Sound(d, fk) && fk != "" && !StartsWith(p, fk + ".")
    ensures !HasKey(d, p)
  {
    forall i | 0 <= i < |d| ensures d[i].key != p {
      assert d[i] in d;
    }
  }

  lemma ReportAbsent(d: Report, fk: string, p: string)
    requires Sound(d, fk) && fk != "" && !StartsWith(p, fk + ".")
    ensures LastWrite(d, p).None?
  {
    OutsideSound(d, fk, p);
    forall i | 0 <= i < |d| ensures d[i].key != p {
      assert d[i] in d;
    }
    LastWriteAbsent(d, p);
  }

  /** An iteration of the first loop writes no path outside the ones it `Touches`. */
  lemma StepUntouched(o1: Value, o2: Value, parent: string, i: nat, p: string)
    requires i < KeyCount(o1) && !Touches(p, parent, KeyAt(o1, i))
    ensures LastWrite(StepWrites(o1, o2, parent, i), p).None?
  {
    var k := KeyAt(o1, i);
    var v1 := ChildAt(o1, i);
    var v2 := Member(o2, k);
    if IsObject(v1) && IsObjectOpt(v2) {
      CoreGood(v1, v2.value, JoinKey(parent, k));
      ReportAbsent(DiffCore(v1, v2.value, JoinKey(parent, k)), JoinKey(parent, k), p);
    }
  }

  /** No iteration of the first loop from the `i`-th key on, except that of the `m`-th key, writes
      the path `p`. */
  predicate Silent(o1: Value, o2: Value, parent: string, i: nat, m: nat, p: string)
    requires i <= KeyCount(o1)
    decreases KeyCount(o1) - i
  {
    i == KeyCount(o1) ||
    ((i == m || LastWrite(StepWrites(o1, o2, parent, i), p).None?) && Silent(o1, o2, parent, i + 1, m, p))
  }

  /** The first loop, from the `i`-th key on, does not write a path none of its iterations writes. */
  lemma {:induction false} OwnUntouched(o1: Value, o2: Value, parent: string, i: nat, m: nat, p: string)
    requires m < i <= KeyCount(o1) && Silent(o1, o2, parent, i, m, p)
    ensures LastWrite(OwnWrites(o1, o2, parent, i), p).None?
    decreases KeyCount(o1) - i
  {
    if i < KeyCount(o1) {
      OwnUntouched(o1, o2, parent, i + 1, m, p);
      OwnUnfold(o1, o2, parent, i);
      LastWriteSkip(StepWrites(o1, o2, parent, i), OwnWrites(o1, o2, parent, i + 1), p);
    }
  }

  lemma OwnUnfold(o1: Value, o2: Value, parent: string, i: nat)
    requires i < KeyCount(o1)
    ensures OwnWrites(o1, o2, parent, i) == StepWrites(o1, o2, parent, i) + OwnWrites(o1, o2, parent, i + 1)
  {
  }

  /** What the iteration for the `m`-th key records at that key's own path. */
  function OwnVerdict(o1: Value, o2: Value, m: nat): Option<Change>
    requires m < KeyCount(o1)
  {
    var v1 := ChildAt(o1, m);
    var v2 := Member(o2, KeyAt(o1, m));
    if (IsObject(v1) && IsObjectOpt(v2)) || EqualOpt(Some(v1), v2) then None
    else Some(Change(Some(v1), v2))
  }

  /** The iteration for a key writes the key's own path only when it records a change. */
  lemma StepAtKey(o1: Value, o2: Value, parent: string, m: nat)
    requires m < KeyCount(o1) && KeyAt(o1, m) != ""
    ensures LastWrite(StepWrites(o1, o2, parent, m), JoinKey(parent, KeyAt(o1, m))) == OwnVerdict(o1, o2, m)
  {
    var k := KeyAt(o1, m);
    var v1 := ChildAt(o1, m);
    var v2 := Member(o2, k);
    var fk := JoinKey(parent, k);
    if IsObject(v1) && IsObjectOpt(v2) {
      CoreGood(v1, v2.value, fk);
      ReportAbsent(DiffCore(v1, v2.value, fk), fk, fk);
    }
  }

  /** The first loop, from the `i`-th key on, last writes at a path what the `m`-th key's iteration
      writes there, once no other iteration writes that path. */
  lemma {:induction false} OwnAtKey(o1: Value, o2: Value, parent: string, i: nat, m: nat, p: string)
    requires i <= m < KeyCount(o1) && Silent(o1, o2, parent, i, m, p)
    ensures LastWrite(OwnWrites(o1, o2, parent, i), p) == LastWrite(StepWrites(o1, o2, parent, m), p)
    decreases m - i
  {
    OwnUnfold(o1, o2, parent, i);
    if i < m {
      OwnAtKey(o1, o2, parent, i + 1, m, p);
      LastWriteSkip(StepWrites(o1, o2, parent, i), OwnWrites(o1, o2, parent, i + 1), p);
    } else {
      OwnUntouched(o1, o2, parent, m + 1, m, p);
      LastWriteKeep(StepWrites(o1, o2, parent, i), OwnWrites(o1, o2, parent, i + 1), p);
    }
  }

  /** What is reported at the path of a key of the old tree: nothing when both sides hold objects
      (only paths below it are reported) or when the two values are deep-equal; otherwise the pair,
      with `newValue` undefined when the new tree lacks the key. Needs the key to be free of dots
      and its siblings non-empty, so that no other key's path can coincide with it. */
  lemma DiffAtKey(o1: Value, o2: Value, parent: string, m: nat)
    requires Wf(o1) && m < KeyCount(o1)
    requires forall j | 0 <= j < KeyCount(o1) :: KeyAt(o1, j) != ""
    requires '.' !in KeyAt(o1, m)
    ensures var k := KeyAt(o1, m);
            var v1 := ChildAt(o1, m);
            var v2 := Member(o2, k);
            Lookup(DiffCore(o1, o2, parent), JoinKey(parent, k)) ==
              if (IsObject(v1) && IsObjectOpt(v2)) || EqualOpt(Some(v1), v2) then None
              else Some(Change(Some(v1), v2))
  {
    var p := JoinKey(parent, KeyAt(o1, m));
    var own := OwnWrites(o1, o2, parent, 0);
    var added := AddedWrites(o1, o2, parent, 0);
    OthersSilent(o1, o2, parent, m, 0);
    OwnAtKey(o1, o2, parent, 0, m, p);
    StepAtKey(o1, o2, parent, m);
    AddedSkipsOwn(o1, o2, parent, m);
    AddedUntouched(o1, o2, parent, 0, 0, p);
    LastWriteConcat(own, added, p);
    AssignAllLookup([], own + added, p);
  }

  /** No iteration but the `m`-th writes the path of the `m`-th key. */
  lemma {:induction false} OthersSilent(o1: Value, o2: Value, parent: string, m: nat, k: nat)
    requires Wf(o1) && m < KeyCount(o1) && k <= KeyCount(o1)
    requires forall j | 0 <= j < KeyCount(o1) :: KeyAt(o1, j) != ""
    requires '.' !in KeyAt(o1, m)
    ensures Silent(o1, o2, parent, k, m, JoinKey(parent, KeyAt(o1, m)))
    decreases KeyCount(o1) - k
  {
    if k < KeyCount(o1) {
      OthersSilent(o1, o2, parent, m, k + 1);
      if k != m {
        OtherUntouched(o1, parent, m, k);
        StepUntouched(o1, o2, parent, k, JoinKey(parent, KeyAt(o1, m)));
      }
    }
  }

  /** The iteration for another key of the same object never writes the path of the `m`-th key. */
  lemma OtherUntouched(o1: Value, parent: string, m: nat, k: nat)
    requires Wf(o1) && m < KeyCount(o1) && k < KeyCount(o1) && k != m
    requires KeyAt(o1, m) != "" && KeyAt(o1, k) != ""
    requires '.' !in KeyAt(o1, m)
    ensures !Touches(JoinKey(parent, KeyAt(o1, m)), parent, KeyAt(o1, k))
  {
    if k < m { KeysDistinct(o1, k, m); } else { KeysDistinct(o1, m, k); }
    SiblingUntouched(parent, KeyAt(o1, m), KeyAt(o1, k));
  }

  lemma AddedSkipsOwn(o1: Value, o2: Value, parent: string, m: nat)
    requires Wf(o1) && m < KeyCount(o1)
    ensures forall j' | 0 <= j' < KeyCount(o2) ::
      HasOwn(o1, KeyAt(o2, j')) || JoinKey(parent, KeyAt(o1, m)) != JoinKey(parent, KeyAt(o2, j'))
  {
    MemberKeyAt(o1, m);
    forall j' | 0 <= j' < KeyCount(o2) && JoinKey(parent, KeyAt(o1, m)) == JoinKey(parent, KeyAt(o2, j'))
      ensures HasOwn(o1, KeyAt(o2, j'))
    {
      JoinInjective(parent, KeyAt(o1, m), KeyAt(o2, j'));
    }
  }

  /** The second loop writes no path that only keys `obj1` owns would give. */
  lemma {:induction false} AddedUntouched(o1: Value, o2: Value, parent: string, lo: nat, j: nat, p: string)
    requires lo <= j <= KeyCount(o2)
    requires forall j' | lo <= j' < KeyCount(o2) :: HasOwn(o1, KeyAt(o2, j')) || p != JoinKey(parent, KeyAt(o2, j'))
    ensures LastWrite(AddedWrites(o1, o2, parent, j), p).None?
    decreases KeyCount(o2) - j
  {
    if j < KeyCount(o2) {
      AddedUntouched(o1, o2, parent, lo, j + 1, p);
      AddedUnfold(o1, o2, parent, j);
      AddedHeadUntouched(o1, o2, parent, j, p);
      LastWriteSkip(AddedHead(o1, o2, parent, j), AddedWrites(o1, o2, parent, j + 1), p);
    }
  }

  lemma AddedHeadUntouched(o1: Value, o2: Value, parent: string, j: nat, p: string)
    requires j < KeyCount(o2)
    requires HasOwn(o1, KeyAt(o2, j)) || p != JoinKey(parent, KeyAt(o2, j))
    ensures LastWrite(AddedHead(o1, o2, parent, j), p).None?
  {
  }

  /** The second loop, from its `i`-th key on, last writes the addition of the `j`-th key at its
      path once no later key of the new tree shares that path. */
  lemma AddedAtKey(o1: Value, o2: Value, parent: string, i: nat, j: nat)
    requires i <= j < KeyCount(o2) && !HasOwn(o1, KeyAt(o2, j))
    requires forall j' | j < j' < KeyCount(o2) :: JoinKey(parent, KeyAt(o2, j)) != JoinKey(parent, KeyAt(o2, j'))
    ensures LastWrite(AddedWrites(o1, o2, parent, i), JoinKey(parent, KeyAt(o2, j))) ==
            Some(Change(None, Some(ChildAt(o2, j))))
  {
    AddedFromKey(o1, o2, parent, j);
    AddedLater(o1, o2, parent, i, j, JoinKey(parent, KeyAt(o2, j)));
  }

  /** What the second loop last writes at a path from a later key on, it still last writes there
      from an earlier key on. */
  lemma {:induction false} AddedLater(o1: Value, o2: Value, parent: string, i: nat, j: nat, p: string)
    requires i <= j <= KeyCount(o2) && LastWrite(AddedWrites(o1, o2, parent, j), p).Some?
    ensures LastWrite(AddedWrites(o1, o2, parent, i), p) == LastWrite(AddedWrites(o1, o2, parent, j), p)
    decreases j - i
  {
    if i < j {
      AddedLater(o1, o2, parent, i + 1, j, p);
      AddedStepLater(o1, o2, parent, i, p);
    }
  }

  lemma AddedStepLater(o1: Value, o2: Value, parent: string, i: nat, p: string)
    requires i < KeyCount(o2) && LastWrite(AddedWrites(o1, o2, parent, i + 1), p).Some?
    ensures LastWrite(AddedWrites(o1, o2, parent, i), p) == LastWrite(AddedWrites(o1, o2, parent, i + 1), p)
  {
    AddedUnfold(o1, o2, parent, i);
    LastWriteLater(AddedHead(o1, o2, parent, i), AddedWrites(o1, o2, parent, i + 1), p);
  }

  /** The second loop, from the `j`-th key on, last writes that key's addition at its path. */
  lemma AddedFromKey(o1: Value, o2: Value, parent: string, j: nat)
    requires j < KeyCount(o2) && !HasOwn(o1, KeyAt(o2, j))
    requires forall j' | j < j' < KeyCount(o2) :: JoinKey(parent, KeyAt(o2, j)) != JoinKey(parent, KeyAt(o2, j'))
    ensures LastWrite(AddedWrites(o1, o2, parent, j), JoinKey(parent, KeyAt(o2, j))) ==
            Some(Change(None, Some(ChildAt(o2, j))))
  {
    var p := JoinKey(parent, KeyAt(o2, j));
    AddedUntouched(o1, o2, parent, j + 1, j + 1, p);
    AddedHeadAtKey(o1, o2, parent, j);
    AddedUnfold(o1, o2, parent, j);
    LastWriteKeep(AddedHead(o1, o2, parent, j), AddedWrites(o1, o2, parent, j + 1), p);
  }

  lemma AddedHeadAtKey(o1: Value, o2: Value, parent: string, j: nat)
    requires j < KeyCount(o2) && !HasOwn(o1, KeyAt(o2, j))
    ensures LastWrite(AddedHead(o1, o2, parent, j), JoinKey(parent, KeyAt(o2, j))) ==
            Some(Change(None, Some(ChildAt(o2, j))))
  {
  }

  /** A key only the new tree owns is reported at its path with `oldValue` undefined and the whole
      new value, sub-tree and all. */
  lemma DiffAddedKey(o1: Value, o2: Value, parent: string, j: nat)
    requires Wf(o2) && j < KeyCount(o2) && !HasOwn(o1, KeyAt(o2, j))
    ensures Lookup(DiffCore(o1, o2, parent), JoinKey(parent, KeyAt(o2, j))) ==
            Some(Change(None, Some(ChildAt(o2, j))))
  {
    var p := JoinKey(parent, KeyAt(o2, j));
    forall j' | j < j' < KeyCount(o2) ensures p != JoinKey(parent, KeyAt(o2, j')) {
      KeysDistinct(o2, j, j');
      if p == JoinKey(parent, KeyAt(o2, j')) { JoinInjective(parent, KeyAt(o2, j), KeyAt(o2, j')); }
    }
    var own := OwnWrites(o1, o2, parent, 0);
    var added := AddedWrites(o1, o2, parent, 0);
    AddedAtKey(o1, o2, parent, 0, j);
    LastWriteConcat(own, added, p);
    AssignAllLookup([], own + added, p);
  }

  /** Keys of the new tree that the old tree owns add nothing in the second loop. */
  lemma {:induction false} AddedNothing(o1: Value, o2: Value, parent: string, lo: nat, j: nat)
    requires lo <= j <= KeyCount(o2)
    requires forall j' | lo <= j' < KeyCount(o2) :: HasOwn(o1, KeyAt(o2, j'))
    ensures AddedWrites(o1, o2, parent, j) == []
    decreases KeyCount(o2) - j
  {
    if j < KeyCount(o2) {
      AddedNothing(o1, o2, parent, lo, j + 1);
      AddedUnfold(o1, o2, parent, j);
      assert HasOwn(o1, KeyAt(o2, j));
    }
  }

  /** A well-formed tree compared with itself reports nothing. */
  lemma {:induction false} DiffSelf(v: Value, parent: string)
    requires Wf(v)
    ensures DiffCore(v, v, parent) == []
    decreases v, 4
  {
    OwnSelf(v, parent, 0);
    forall j | 0 <= j < KeyCount(v) ensures HasOwn(v, KeyAt(v, j)) {
      MemberKeyAt(v, j);
    }
    AddedNothing(v, v, parent, 0, 0);
    assert Writes(v, v, parent) == [];
  }

  lemma {:induction false} OwnSelf(v: Value, parent: string, i: nat)
    requires Wf(v) && i <= KeyCount(v)
    ensures OwnWrites(v, v, parent, i) == []
    decreases v, 2, KeyCount(v) - i
  {
    if i < KeyCount(v) {
      StepSelf(v, parent, i);
      OwnSelf(v, parent, i + 1);
      OwnUnfold(v, v, parent, i);
    }
  }

  /** The iteration for a key of a tree compared with itself records nothing. */
  lemma StepSelf(v: Value, parent: string, i: nat)
    requires Wf(v) && i < KeyCount(v)
    ensures StepWrites(v, v, parent, i) == []
    decreases v, 1
  {
    var c := ChildAt(v, i);
    MemberKeyAt(v, i);
    ChildWf(v, i);
    if IsObject(c) {
      DiffSelf(c, JoinKey(parent, KeyAt(v, i)));
    } else {
      EqualRefl(c);
    }
  }

  lemma ChildWf(v: Value, i: nat)
    requires Wf(v) && i < KeyCount(v)
    ensures Wf(ChildAt(v, i))
  {
  }

  /** Comparing a snapshot with an identical tree yields an empty report. */
  lemma FindDifferenceSelf(o: Option<Value>)
    requires o.Some? ==> Wf(o.value)
    ensures FindDifference(o, o) == Ok([])
  {
    if !Nullish(o) {
      DiffSelf(o.value, "");
    }
  }
}
