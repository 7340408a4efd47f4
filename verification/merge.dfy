/** `mergeObjectsWithPriority` (components/Config.js): the user tree merged over the shipped
    default with `_.mergeWith({}, user, default, customizer)`, and the `differences` flag the
    customizer raises on the way.

    `mergeWith` copies its sources into the empty target one after the other, key by key in
    `for…in` order, and asks the customizer for every key; the customizer sees the value the target
    holds so far (`objValue`) and the source's value (`srcValue`). Its answer is always defined, so
    lodash's own deep merge never runs and the answer is stored as it is. */
module Merge {
  import opened Wrappers
  import opened Dict
  import opened Values

  /** What the customizer answered, and whether that call raised `differences`. */
  datatype Step = Step(val: Value, flag: bool)

  /** A merged mapping and whether any customizer call during the merge raised `differences`. */
  datatype Merged = Merged(fields: seq<Field>, flag: bool)

  /** The result of `mergeObjectsWithPriority(user, def)`. */
  datatype Outcome = Outcome(differences: bool, result: Value)

  /** `objValue !== undefined ? objValue : srcValue`. */
  function Pick(ov: Option<Value>, sv: Value): (r: Value)
    ensures ov.Some? ==> r == ov.value
    ensures ov.None? ==> r == sv
  {
    match ov
    case Some(v) => v
    case None => sv
  }

  /** Both sides are plain mappings that are not deep-equal: the only case that recurses. */
  predicate Recurses(ov: Option<Value>, sv: Value) {
    ov.Some? && ov.value.Obj? && sv.Obj? && !Equal(ov.value, sv)
  }

  /** The customizer. Two arrays keep the target's; two differing plain mappings are merged anew
      (`_.mergeWith({}, objValue, srcValue, customizer)`); otherwise the target's value wins when
      defined, and the flag is raised when the two are not deep-equal. */
  function Customize(ov: Option<Value>, sv: Value): (r: Step)
    requires ov.Some? ==> Wf(ov.value)
    requires Wf(sv)
    ensures Wf(r.val)
    ensures Recurses(ov, sv) ==> r.val.Obj?
    ensures !Recurses(ov, sv) ==> r.val == Pick(ov, sv)
    ensures ov.None? ==> r.flag
    ensures ov.Some? && ov.value.Arr? && sv.Arr? ==> !r.flag
    decreases sv, 0
  {
    if ov.Some? && ov.value.Arr? && sv.Arr? then Step(ov.value, false)
    else if ov.Some? && ov.value.Obj? && sv.Obj? then
      if !Equal(ov.value, sv) then
        var m := MergeWith(ov.value.fields, sv.fields);
        Step(Obj(m.fields), m.flag)
      else Step(ov.value, false)
    else if !EqualOpt(ov, Some(sv)) then Step(Pick(ov, sv), true)
    else Step(Pick(ov, sv), false)
  }

  /** `_.mergeWith({}, a, b, customizer)` over the fields of two sources. The first pass copies `a`
      into the empty target: every key is new there, so the customizer answers `srcValue` and raises
      the flag (see `FirstPassIsGenericLoop`). The second pass brings in `b`. */
  function MergeWith(a: seq<Field>, b: seq<Field>): (m: Merged)
    requires WfFields(a) && WfFields(b)
    ensures WfFields(m.fields)
    ensures |a| > 0 ==> m.flag
    decreases b, 2
  {
    var second := SecondPass(a, b);
    Merged(second.fields, |a| > 0 || second.flag)
  }

  /** Copies the fields of `s` into the target `t`, asking the customizer key by key. */
  function SecondPass(t: seq<Field>, s: seq<Field>): (m: Merged)
    requires WfFields(t) && WfFields(s)
    ensures WfFields(m.fields)
    decreases s, 1
  {
    if |s| == 0 then Merged(t, false)
    else
      LookupWf(t, s[0].key);
      var st := Customize(Lookup(t, s[0].key), s[0].val);
      AssignWf(t, s[0].key, st.val);
      var rest := SecondPass(Assign(t, s[0].key, st.val), s[1..]);
      Merged(rest.fields, st.flag || rest.flag)
  }

  /** `mergeObjectsWithPriority(objA, objB)`; falsy sources such as `null` are skipped by `mergeWith`. */
  function MergeObjectsWithPriority(user: Value, def: Value): (o: Outcome)
    requires Wf(user) && Wf(def)
    ensures o.result.Obj? && WfFields(o.result.fields)
    ensures o.differences <==> SourceFields(user) != [] || SourceFields(def) != []
  {
    var m := MergeWith(SourceFields(user), SourceFields(def));
    MergeFlag(SourceFields(user), SourceFields(def));
    Outcome(m.flag, Obj(m.fields))
  }

  /** With no value in the target yet, the customizer hands back the source's value and raises the flag. */
  lemma CustomizeUndefined(sv: Value)
    requires Wf(sv)
    ensures Customize(None, sv) == Step(sv, true)
  {
  }

  /** The first pass, run as the generic loop over an empty target, copies the first source
      unchanged and raises the flag as soon as there is a key. */
  lemma {:induction false} FirstPassIsGenericLoop(a: seq<Field>)
    requires WfFields(a)
    ensures SecondPass([], a) == Merged(a, |a| > 0)
  {
    CopyIntoDisjoint([], a);
    assert [] + a == a;
  }

  lemma {:induction false} CopyIntoDisjoint(t: seq<Field>, s: seq<Field>)
    requires WfFields(t) && WfFields(s)
    requires forall i | 0 <= i < |s| :: !HasKey(t, s[i].key)
    ensures SecondPass(t, s) == Merged(t + s, |s| > 0)
    decreases |s|
  {
    if |s| > 0 {
      var k := s[0].key;
      var t' := t + [s[0]];
      CopyStep(t, s);
      DisjointAfterCopy(t, s);
      WfTail(s);
      CopyIntoDisjoint(t', s[1..]);
      ConcatShift(t, s);
    }
  }

  lemma DisjointAfterCopy(t: seq<Field>, s: seq<Field>)
    requires DistinctKeys(s) && |s| > 0
    requires forall i | 0 <= i < |s| :: !HasKey(t, s[i].key)
    ensures forall i | 0 <= i < |s[1..]| :: !HasKey(t + [s[0]], s[1..][i].key)
  {
    forall i | 0 <= i < |s[1..]| ensures !HasKey(t + [s[0]], s[1..][i].key) {
      TailKeys(s, i);
      AppendOther(t, s[0].key, s[0].val, s[i + 1].key);
    }
  }

  /** One step of the loop when the key is new to the target: the source's field is appended. */
  lemma CopyStep(t: seq<Field>, s: seq<Field>)
    requires WfFields(t) && WfFields(s) && |s| > 0 && !HasKey(t, s[0].key)
    ensures Assign(t, s[0].key, s[0].val) == t + [s[0]]
    ensures WfFields(t + [s[0]])
    ensures SecondPass(t, s) == Merged(SecondPass(t + [s[0]], s[1..]).fields, true)
  {
    CustomizeUndefined(s[0].val);
    AssignWf(t, s[0].key, s[0].val);
  }

  lemma ConcatShift(t: seq<Field>, s: seq<Field>)
    requires |s| > 0
    ensures t + [s[0]] + s[1..] == t + s
  {
  }

  lemma WfTail(s: seq<Field>)
    requires WfFields(s) && |s| > 0
    ensures WfFields(s[1..])
  {
    assert forall i | 0 <= i < |s| - 1 :: s[1..][i] == s[i + 1];
  }

  /** The tail of a mapping with distinct keys holds none of the first key. */
  lemma TailKeys(s: seq<Field>, i: nat)
    requires DistinctKeys(s) && i + 1 < |s|
    ensures s[1..][i] == s[i + 1] && s[i + 1].key != s[0].key
  {
  }

  lemma TailLacksHead(s: seq<Field>)
    requires DistinctKeys(s) && |s| > 0
    ensures !HasKey(s[1..], s[0].key)
  {
    forall j | 0 <= j < |s| - 1 ensures s[1..][j].key != s[0].key {
      TailKeys(s, j);
    }
  }

  lemma AssignOtherKey(fs: seq<Field>, k: string, v: Value, k': string)
    requires k' != k
    ensures HasKey(Assign(fs, k, v), k') <==> HasKey(fs, k')
  {
    assert Lookup(Assign(fs, k, v), k') == Lookup(fs, k');
  }

  /** The flag is raised exactly when either source has a key: every key of the user tree is
      compared with the `undefined` of the empty target, and so is the first key of the default
      when the user tree has none. Nothing else decides it. */
  lemma MergeFlag(a: seq<Field>, b: seq<Field>)
    requires WfFields(a) && WfFields(b)
    ensures MergeWith(a, b).flag <==> |a| > 0 || |b| > 0
  {
    if |a| == 0 && |b| > 0 {
      assert Lookup<Value>([], b[0].key).None?;
    }
  }

  /** Merging a user tree with the very same default tree still reports differences: the flag does
      not mean that the merged result differs from the user tree. */
  lemma FlagWithoutChange()
    ensures var t := Obj([Entry("port", Num(8080))]);
            MergeObjectsWithPriority(t, t) == Outcome(true, t)
  {
    var fs := [Entry("port", Num(8080))];
    var t1 := Assign(fs, "port", Num(8080));
    assert t1 == fs;
    assert SecondPass(fs, fs) == Merged(fs, false);
  }

  /** The value the merge stores under `k`, read off the two sources (`a` the user's, `b` the default). */
  lemma {:induction false} SecondPassLookup(t: seq<Field>, s: seq<Field>, k: string)
    requires WfFields(t) && WfFields(s)
    ensures HasKey(s, k) ==> (LookupWf(t, k); LookupWf(s, k);
      Lookup(SecondPass(t, s).fields, k) == Some(Customize(Lookup(t, k), Lookup(s, k).value).val))
    ensures !HasKey(s, k) ==> Lookup(SecondPass(t, s).fields, k) == Lookup(t, k)
    decreases |s|
  {
    if |s| > 0 {
      LookupWf(t, s[0].key);
      var st := Customize(Lookup(t, s[0].key), s[0].val);
      AssignWf(t, s[0].key, st.val);
      var t' := Assign(t, s[0].key, st.val);
      SecondPassLookup(t', s[1..], k);
      if s[0].key == k {
        LookupHead(s, k);
        TailLacksHead(s);
      } else {
        LookupTail(s, k);
      }
    }
  }

  /** The merge keeps the user's value under every user key, except that two differing plain
      mappings are merged again under the same rules; keys only the default has are copied in; the
      keys are exactly those of either source. */
  lemma {:induction false} MergePriority(a: seq<Field>, b: seq<Field>, k: string)
    requires WfFields(a) && WfFields(b)
    ensures HasKey(MergeWith(a, b).fields, k) <==> HasKey(a, k) || HasKey(b, k)
    ensures Lookup(a, k).Some? && !(Lookup(b, k).Some? && Recurses(Lookup(a, k), Lookup(b, k).value)) ==>
      Lookup(MergeWith(a, b).fields, k) == Lookup(a, k)
    ensures Lookup(a, k).None? ==> Lookup(MergeWith(a, b).fields, k) == Lookup(b, k)
    ensures Lookup(a, k).Some? && Lookup(b, k).Some? && Recurses(Lookup(a, k), Lookup(b, k).value) ==>
      (LookupWf(a, k); LookupWf(b, k);
       Lookup(MergeWith(a, b).fields, k) ==
         Some(Obj(MergeWith(Lookup(a, k).value.fields, Lookup(b, k).value.fields).fields)))
  {
    SecondPassLookup(a, b, k);
    LookupWf(a, k);
    LookupWf(b, k);
  }

  /** Keys of `s` that the target `t` does not hold yet, in the order of `s`. */
  function NewKeys(t: seq<Field>, s: seq<Field>): (ks: seq<string>)
    ensures forall i | 0 <= i < |ks| :: !HasKey(t, ks[i]) && ks[i] in Keys(s)
  {
    if |s| == 0 then []
    else (if HasKey(t, s[0].key) then [] else [s[0].key]) + NewKeys(t, s[1..])
  }

  lemma {:induction false} NewKeysAfterAssign(t: seq<Field>, k: string, v: Value, s: seq<Field>)
    requires forall i | 0 <= i < |s| :: s[i].key != k
    ensures NewKeys(Assign(t, k, v), s) == NewKeys(t, s)
    decreases |s|
  {
    if |s| > 0 {
      AssignOtherKey(t, k, v, s[0].key);
      NewKeysAfterAssign(t, k, v, s[1..]);
    }
  }

  /** The merged mapping lists the user's keys in the user's order, then the keys only the default
      has, in the default's order: the order `initCfg` writes them back in. */
  lemma {:induction false} SecondPassKeyOrder(t: seq<Field>, s: seq<Field>)
    requires WfFields(t) && WfFields(s)
    ensures Keys(SecondPass(t, s).fields) == Keys(t) + NewKeys(t, s)
    decreases |s|
  {
    if |s| > 0 {
      var k := s[0].key;
      var t', v := SecondPassUnfold(t, s);
      SecondPassKeyOrder(t', s[1..]);
      var x := if HasKey(t, k) then [] else [k];
      assert NewKeys(t', s[1..]) == NewKeys(t, s[1..]) by {
        forall i | 0 <= i < |s[1..]| ensures s[1..][i].key != k {
          TailKeys(s, i);
        }
        NewKeysAfterAssign(t, k, v, s[1..]);
      }
      assert Keys(t') == Keys(t) + x by {
        KeysAssign(t, k, v);
      }
      assert NewKeys(t, s) == x + NewKeys(t, s[1..]);
      Assoc(Keys(t), x, NewKeys(t, s[1..]));
    }
  }

  lemma Assoc(a: seq<string>, b: seq<string>, c: seq<string>)
    ensures a + b + c == a + (b + c)
  {
  }

  /** One step of the second pass: the target after the first key, from which the rest continues. */
  lemma {:induction false} SecondPassUnfold(t: seq<Field>, s: seq<Field>) returns (t': seq<Field>, v: Value)
    requires WfFields(t) && WfFields(s) && |s| > 0
    ensures WfFields(t') && WfFields(s[1..])
    ensures (LookupWf(t, s[0].key); v == Customize(Lookup(t, s[0].key), s[0].val).val)
    ensures t' == Assign(t, s[0].key, v)
    ensures SecondPass(t, s).fields == SecondPass(t', s[1..]).fields
  {
    LookupWf(t, s[0].key);
    var st := Customize(Lookup(t, s[0].key), s[0].val);
    AssignWf(t, s[0].key, st.val);
    WfTail(s);
    v := st.val;
    t' := Assign(t, s[0].key, v);
  }

  lemma {:induction false} MergeKeyOrder(a: seq<Field>, b: seq<Field>)
    requires WfFields(a) && WfFields(b)
    ensures Keys(MergeWith(a, b).fields) == Keys(a) + NewKeys(a, b)
  {
    SecondPassKeyOrder(a, b);
  }
}
