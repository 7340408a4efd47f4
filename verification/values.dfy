/** The configuration tree: what `YAML.parse` hands back, seen through the JavaScript operations the
    plugin applies to it (property access, `for…in`, `_.isEqual`, `_.isObject`, truthiness). */
module Values {
  import opened Wrappers
  import opened Text
  import opened Dict

  /** A parsed YAML document. Mappings keep their keys in insertion order, because `for…in`
      and everything that is dispatched in that order follow it. */
  datatype Value =
    | Null
    | Bool(b: bool)
    | Num(n: int)
    | Str(s: string)
    | Arr(items: seq<Value>)
    | Obj(fields: seq<Field>)

  type Field = Entry<Value>

  /** Every mapping in the tree, however deep, has pairwise distinct keys, as a JavaScript object does. */
  predicate Wf(v: Value)
    decreases v, 1
  {
    match v
    case Arr(items) => forall i | 0 <= i < |items| :: Wf(items[i])
    case Obj(fs) => WfFields(fs)
    case _ => true
  }

  predicate WfFields(fs: seq<Field>)
    decreases fs, 0
  {
    DistinctKeys(fs) && forall i | 0 <= i < |fs| :: Wf(fs[i].val)
  }

  /** A value found in a well-formed mapping is well formed. */
  lemma LookupWf(fs: seq<Field>, k: string)
    requires WfFields(fs)
    ensures Lookup(fs, k).Some? ==> Wf(Lookup(fs, k).value)
  {
  }

  /** Storing a well-formed value keeps a mapping well formed. */
  lemma AssignWf(fs: seq<Field>, k: string, v: Value)
    requires WfFields(fs) && Wf(v)
    ensures WfFields(Assign(fs, k, v))
  {
    var r := Assign(fs, k, v);
    if HasKey(fs, k) {
      var i := KeyIndex(fs, k).value;
      assert r == fs[i := Entry(k, v)];
    }
  }

  /** `_.isEqual`: deep structural equality. Mappings are equal when they have as many keys and
      each key of the first is an own key of the second with an equal value; key order is irrelevant. */
  predicate Equal(a: Value, b: Value)
    decreases a
  {
    if a.Arr? && b.Arr? then
      |a.items| == |b.items| && forall i | 0 <= i < |a.items| :: Equal(a.items[i], b.items[i])
    else if a.Obj? && b.Obj? then
      |a.fields| == |b.fields| &&
      forall i | 0 <= i < |a.fields| ::
        Lookup(b.fields, a.fields[i].key).Some? && Equal(a.fields[i].val, Lookup(b.fields, a.fields[i].key).value)
    else if a.Arr? || a.Obj? || b.Arr? || b.Obj? then false
    else a == b
  }

  /** `_.isEqual` on two operands either of which may be `undefined`. */
  predicate EqualOpt(a: Option<Value>, b: Option<Value>) {
    match (a, b)
    case (None, None) => true
    case (Some(x), Some(y)) => Equal(x, y)
    case _ => false
  }

  /** Every well-formed tree is `_.isEqual` to itself. */
  lemma {:induction false} EqualRefl(v: Value)
    requires Wf(v)
    ensures Equal(v, v)
    decreases v
  {
    match v
    case Arr(items) =>
      forall i | 0 <= i < |items| ensures Equal(items[i], items[i]) {
        EqualRefl(items[i]);
      }
    case Obj(fs) =>
      forall i | 0 <= i < |fs|
        ensures Lookup(fs, fs[i].key).Some? && Equal(fs[i].val, Lookup(fs, fs[i].key).value)
      {
        LookupAt(fs, i);
        EqualRefl(fs[i].val);
      }
    case _ =>
  }

  /** `_.isObject`: arrays and mappings (the only object kinds a YAML document holds). */
  predicate IsObject(v: Value) {
    v.Arr? || v.Obj?
  }

  predicate IsObjectOpt(o: Option<Value>) {
    o.Some? && IsObject(o.value)
  }

  /** `typeof x === 'object'`, which is also true of `null`. */
  predicate TypeofObject(o: Option<Value>) {
    o.Some? && (o.value.Null? || o.value.Arr? || o.value.Obj?)
  }

  /** `null` or `undefined`: reading a property of either throws. */
  predicate Nullish(o: Option<Value>) {
    o.None? || o.value.Null?
  }

  /** JavaScript truthiness. */
  predicate Truthy(v: Value) {
    match v
    case Null => false
    case Bool(b) => b
    case Num(n) => n != 0
    case Str(s) => s != ""
    case _ => true
  }

  predicate TruthyOpt(o: Option<Value>) {
    o.Some? && Truthy(o.value)
  }

  /** Number of keys `for…in` visits: the indices of an array, the keys of a mapping, none of a scalar. */
  function KeyCount(v: Value): nat {
    match v
    case Arr(items) => |items|
    case Obj(fs) => |fs|
    case _ => 0
  }

  /** The `i`-th key `for…in` visits: an array index is visited as its decimal string. */
  function KeyAt(v: Value, i: nat): string
    requires i < KeyCount(v)
  {
    if v.Arr? then NatToDec(i) else v.fields[i].key
  }

  /** The value under the `i`-th visited key. */
  function ChildAt(v: Value, i: nat): Value
    requires i < KeyCount(v)
  {
    if v.Arr? then v.items[i] else v.fields[i].val
  }

  /** `v[k]` for a non-nullish `v`: own keys of mappings, canonical indices and `length` of arrays.
      Scalars have no own properties here. */
  function Member(v: Value, k: string): (r: Option<Value>)
    ensures v.Obj? ==> r == Lookup(v.fields, k)
    ensures !IsObject(v) ==> r.None?
  {
    match v
    case Obj(fs) => Lookup(fs, k)
    case Arr(items) =>
      if k == "length" then Some(Num(|items|))
      else
        (match ParseIndex(k)
         case Some(n) => if n < |items| then Some(items[n]) else None
         case None => None)
    case _ => None
  }

  /** `v[k]` where `v` may be a string primitive, as the whole-file readers index a parsed document:
      a string answers its `length` and, at a canonical index below it, the one-character string
      there; any other value answers as `Member` does. */
  function Property(v: Value, k: string): (r: Option<Value>)
    ensures !v.Str? ==> r == Member(v, k)
    ensures v.Str? ==> (r.Some? <==> k == "length" || (ParseIndex(k).Some? && ParseIndex(k).value < |v.s|))
  {
    match v
    case Str(s) =>
      if k == "length" then Some(Num(|s|))
      else
        (match ParseIndex(k)
         case Some(n) => if n < |s| then Some(Str([s[n]])) else None
         case None => None)
    case _ => Member(v, k)
  }

  /** `Object.keys(v).length`: a string primitive has one key per character, other scalars none. */
  function OwnKeyCount(v: Value): nat {
    if v.Str? then |v.s| else KeyCount(v)
  }

  /** `v[Object.keys(v)[0]]`. */
  function FirstOwnValue(v: Value): Value
    requires OwnKeyCount(v) > 0
  {
    if v.Str? then Str(v.s[..1]) else ChildAt(v, 0)
  }

  /** The value under the first key `Object.keys` lists is what reading that key gives: for a string,
      its first character under the key `"0"`; for arrays and mappings, the first visited child. */
  lemma FirstOwnValueIsProperty(v: Value)
    requires Wf(v) && OwnKeyCount(v) > 0
    ensures v.Str? ==> Property(v, NatToDec(0)) == Some(FirstOwnValue(v))
    ensures !v.Str? ==> Property(v, KeyAt(v, 0)) == Some(FirstOwnValue(v))
  {
    if v.Str? {
      IndexKeyRoundTrip(0);
      assert v.s[..1] == [v.s[0]];
    } else {
      MemberKeyAt(v, 0);
    }
  }

  /** `Object.prototype.hasOwnProperty.call(v, k)`; arrays own their `length`. */
  predicate HasOwn(v: Value, k: string) {
    match v
    case Obj(fs) => HasKey(fs, k)
    case Arr(items) =>
      k == "length" || (ParseIndex(k).Some? && ParseIndex(k).value < |items|)
    case _ => false
  }

  /** The keys `for…in` visits are own properties, and reading one gives the value visited with it. */
  lemma MemberKeyAt(v: Value, i: nat)
    requires Wf(v) && i < KeyCount(v)
    ensures HasOwn(v, KeyAt(v, i))
    ensures Member(v, KeyAt(v, i)) == Some(ChildAt(v, i))
  {
    if v.Arr? {
      IndexKeyRoundTrip(i);
      assert NatToDec(i) != "length" by { assert IsDigit(NatToDec(i)[0]); }
    } else {
      LookupAt(v.fields, i);
    }
  }

  /** `for…in` visits each own key of a well-formed tree once. */
  lemma KeysDistinct(v: Value, i: nat, j: nat)
    requires Wf(v) && i < j < KeyCount(v)
    ensures KeyAt(v, i) != KeyAt(v, j)
  {
    if v.Arr? {
      if NatToDec(i) == NatToDec(j) {
        IndexKeyInjective(i, j);
      }
    }
  }

  /** The own properties of `v` are exactly the keys `for…in` visits (apart from an array's `length`). */
  lemma HasOwnIsVisited(v: Value, k: string)
    requires HasOwn(v, k) && !(v.Arr? && k == "length")
    ensures exists i | 0 <= i < KeyCount(v) :: KeyAt(v, i) == k
  {
    if v.Arr? {
      var n := ParseIndex(k).value;
      ParseIndexCanonical(k);
      assert KeyAt(v, n) == k;
    } else {
      var i :| 0 <= i < |v.fields| && v.fields[i].key == k;
      assert KeyAt(v, i) == k;
    }
  }

  lemma ParseIndexCanonical(k: string)
    requires ParseIndex(k).Some?
    ensures NatToDec(ParseIndex(k).value) == k
  {
    CanonicalDigits(k);
  }

  /** A canonical digit string is the decimal form of its value. */
  lemma {:induction false} CanonicalDigits(k: string)
    requires |k| > 0 && AllDigits(k) && (k == "0" || k[0] != '0')
    ensures NatToDec(DigitsValue(k)) == k
    decreases |k|
  {
    var n := DigitsValue(k);
    if |k| == 1 {
      assert k[..0] == [];
      assert n == DigitVal(k[0]) < 10;
      assert NatToDec(n) == [DigitChar(n)];
    } else {
      var p := k[..|k| - 1];
      assert p[0] == k[0];
      assert AllDigits(p);
      assert p != "0";
      CanonicalDigits(p);
      PositiveLeading(p);
      var d := DigitVal(k[|k| - 1]);
      assert n == 10 * DigitsValue(p) + d;
      assert n / 10 == DigitsValue(p) && n % 10 == d;
      assert DigitChar(d) == k[|k| - 1];
      assert k == p + [k[|k| - 1]];
    }
  }

  /** A digit string of two or more digits that does not start with `0` is worth at least 10. */
  lemma {:induction false} PositiveLeading(p: string)
    requires |p| > 0 && AllDigits(p) && p[0] != '0'
    ensures DigitsValue(p) >= 1
    ensures |p| >= 2 ==> DigitsValue(p) >= 10
    decreases |p|
  {
    if |p| > 1 {
      var q := p[..|p| - 1];
      assert q[0] == p[0];
      PositiveLeading(q);
    }
  }

  /** The fields `_.merge` copies from a source: a mapping's own keys, the indices of an array or
      of a string (one-character strings); `null`, booleans and numbers contribute nothing. */
  function SourceFields(v: Value): (fs: seq<Field>)
    ensures Wf(v) ==> WfFields(fs)
    ensures v.Obj? ==> fs == v.fields
    ensures v.Arr? ==> |fs| == |v.items| && forall i | 0 <= i < |fs| :: fs[i] == Entry(NatToDec(i), v.items[i])
    ensures v.Str? ==> |fs| == |v.s| && forall i | 0 <= i < |fs| :: fs[i] == Entry(NatToDec(i), Str([v.s[i]]))
    ensures v.Null? || v.Bool? || v.Num? ==> fs == []
  {
    match v
    case Obj(fs) => fs
    case Arr(items) =>
      var fs := seq(|items|, i requires 0 <= i < |items| => Entry(NatToDec(i), items[i]));
      IndexFieldsDistinct(fs);
      fs
    case Str(s) =>
      var fs := seq(|s|, i requires 0 <= i < |s| => Entry(NatToDec(i), Str([s[i]])));
      IndexFieldsDistinct(fs);
      fs
    case _ => []
  }

  lemma IndexFieldsDistinct(fs: seq<Field>)
    requires forall i | 0 <= i < |fs| :: fs[i].key == NatToDec(i)
    ensures DistinctKeys(fs)
  {
    forall i, j | 0 <= i < j < |fs| ensures fs[i].key != fs[j].key {
      if NatToDec(i) == NatToDec(j) { IndexKeyInjective(i, j); }
    }
  }

  /** `String(x)` and template interpolation `${x}`. */
  function JsString(o: Option<Value>): (s: string)
    ensures o == Some(Null) ==> s == "null"
    ensures o.None? ==> s == "undefined"
  {
    match o
    case None => "undefined"
    case Some(v) => ValueString(v)
  }

  function ValueString(v: Value): string
    decreases v, 1
  {
    match v
    case Null => "null"
    case Bool(b) => if b then "true" else "false"
    case Num(n) => IntToDec(n)
    case Str(s) => s
    case Arr(items) => JoinElements(items)
    case Obj(_) => "[object Object]"
  }

  /** `Array.prototype.join(',')`: `null` elements print as the empty string. */
  function JoinElements(items: seq<Value>): string
    decreases items, 0
  {
    if |items| == 0 then ""
    else
      var head := if items[0].Null? then "" else ValueString(items[0]);
      if |items| == 1 then head else head + "," + JoinElements(items[1..])
  }
}
