/** A JavaScript object as the plugin uses it: string keys in insertion order, each key at most
    once when the object is well formed. Reading a key that is absent gives `undefined` (`None`);
    assigning an absent key appends it, assigning a present one replaces its value in place. */
module Dict {
  import opened Wrappers

  datatype Entry<V> = Entry(key: string, val: V)

  predicate DistinctKeys<V>(fs: seq<Entry<V>>) {
    forall i, j | 0 <= i < j < |fs| :: fs[i].key != fs[j].key
  }

  /** The keys of a mapping, in order. */
  function Keys<V>(fs: seq<Entry<V>>): (ks: seq<string>)
    ensures |ks| == |fs| && forall i | 0 <= i < |fs| :: ks[i] == fs[i].key
  {
    if |fs| == 0 then [] else [fs[0].key] + Keys(fs[1..])
  }

  predicate HasKey<V>(fs: seq<Entry<V>>, k: string) {
    exists i | 0 <= i < |fs| :: fs[i].key == k
  }

  /** Position of the first field named `k`. */
  function KeyIndex<V>(fs: seq<Entry<V>>, k: string): (r: Option<nat>)
    ensures r.None? <==> !HasKey(fs, k)
    ensures r.Some? ==> r.value < |fs| && fs[r.value].key == k
    ensures r.Some? ==> forall j | 0 <= j < r.value :: fs[j].key != k
  {
    if |fs| == 0 then None
    else if fs[0].key == k then Some(0)
    else
      match KeyIndex(fs[1..], k)
      case None => None
      case Some(i) => Some(i + 1)
  }

  /** Reading `obj[k]` as an own property; `None` is `undefined`. */
  function Lookup<V>(fs: seq<Entry<V>>, k: string): (r: Option<V>)
    ensures r.None? <==> !HasKey(fs, k)
  {
    match KeyIndex(fs, k)
    case None => None
    case Some(i) => Some(fs[i].val)
  }

  /** With distinct keys, the field at any position is the one a lookup of its key finds. */
  lemma LookupAt<V>(fs: seq<Entry<V>>, i: nat)
    requires DistinctKeys(fs) && i < |fs|
    ensures Lookup(fs, fs[i].key) == Some(fs[i].val)
  {
    var r := KeyIndex(fs, fs[i].key);
    assert HasKey(fs, fs[i].key);
  }

  lemma LookupHead<V>(fs: seq<Entry<V>>, k: string)
    requires |fs| > 0 && fs[0].key == k
    ensures Lookup(fs, k) == Some(fs[0].val)
  {
  }

  lemma LookupTail<V>(fs: seq<Entry<V>>, k: string)
    requires |fs| > 0 && fs[0].key != k
    ensures Lookup(fs[1..], k) == Lookup(fs, k)
    ensures HasKey(fs[1..], k) <==> HasKey(fs, k)
  {
    if HasKey(fs, k) {
      var i :| 0 <= i < |fs| && fs[i].key == k;
      assert fs[1..][i - 1].key == k;
    }
  }

  /** `obj[k] = v`: an existing key keeps its place, a new key goes last. */
  function Assign<V>(fs: seq<Entry<V>>, k: string, v: V): (r: seq<Entry<V>>)
    ensures Lookup(r, k) == Some(v)
    ensures forall k' | k' != k :: Lookup(r, k') == Lookup(fs, k')
    ensures HasKey(fs, k) ==> |r| == |fs| && forall j | 0 <= j < |fs| :: r[j].key == fs[j].key
    ensures !HasKey(fs, k) ==> r == fs + [Entry(k, v)]
    ensures DistinctKeys(fs) ==> DistinctKeys(r)
    ensures forall e | e in r :: e == Entry(k, v) || e in fs
  {
    match KeyIndex(fs, k)
    case Some(i) =>
      var r := fs[i := Entry(k, v)];
      assert r[i].key == k && HasKey(r, k);
      assert forall j | 0 <= j < i :: r[j] == fs[j];
      assert KeyIndex(r, k) == Some(i);
      forall k' | k' != k ensures Lookup(r, k') == Lookup(fs, k') {
        AssignOther(fs, i, k, v, k');
      }
      r
    case None =>
      var r := fs + [Entry(k, v)];
      assert r[|fs|].key == k;
      assert KeyIndex(r, k) == Some(|fs|);
      forall k' | k' != k ensures Lookup(r, k') == Lookup(fs, k') {
        AppendOther(fs, k, v, k');
      }
      r
  }

  /** Storing under a key leaves the key order alone, or appends the new key. */
  lemma KeysAssign<V>(fs: seq<Entry<V>>, k: string, v: V)
    ensures Keys(Assign(fs, k, v)) == Keys(fs) + (if HasKey(fs, k) then [] else [k])
  {
  }

  lemma AssignOther<V>(fs: seq<Entry<V>>, i: nat, k: string, v: V, k': string)
    requires i < |fs| && fs[i].key == k && k' != k
    ensures Lookup(fs[i := Entry(k, v)], k') == Lookup(fs, k')
  {
    var r := fs[i := Entry(k, v)];
    assert forall j | 0 <= j < |fs| :: r[j].key == k' <==> fs[j].key == k';
    assert HasKey(r, k') <==> HasKey(fs, k');
    if HasKey(fs, k') {
      var a := KeyIndex(fs, k').value;
      var b := KeyIndex(r, k').value;
      assert a == b;
    }
  }

  lemma AppendOther<V>(fs: seq<Entry<V>>, k: string, v: V, k': string)
    requires k' != k
    ensures Lookup(fs + [Entry(k, v)], k') == Lookup(fs, k')
  {
    var r := fs + [Entry(k, v)];
    assert HasKey(r, k') <==> HasKey(fs, k') by {
      if HasKey(r, k') {
        var j :| 0 <= j < |r| && r[j].key == k';
        assert j < |fs| && fs[j].key == k';
      }
      if HasKey(fs, k') {
        var j :| 0 <= j < |fs| && fs[j].key == k';
        assert r[j].key == k';
      }
    }
    assert forall j | 0 <= j < |fs| :: r[j] == fs[j];
    if HasKey(fs, k') {
      var a := KeyIndex(fs, k').value;
      var b := KeyIndex(r, k').value;
      assert a == b;
    }
  }

  /** `Object.assign(target, source)`: the source's entries are assigned one by one, in order. */
  function AssignAll<V>(r: seq<Entry<V>>, d: seq<Entry<V>>): (o: seq<Entry<V>>)
    ensures forall e | e in o :: e in r || e in d
    ensures forall k | !HasKey(d, k) :: Lookup(o, k) == Lookup(r, k)
    ensures DistinctKeys(r) ==> DistinctKeys(o)
    decreases |d|
  {
    if |d| == 0 then r
    else
      var o := AssignAll(Assign(r, d[0].key, d[0].val), d[1..]);
      assert forall e | e in d[1..] :: e in d;
      forall k | !HasKey(d, k) ensures Lookup(o, k) == Lookup(r, k) {
        assert d[0].key != k;
        assert !HasKey(d[1..], k) by {
          forall j | 0 <= j < |d[1..]| ensures d[1..][j].key != k {
            assert d[1..][j] == d[j + 1];
          }
        }
      }
      o
  }

  /** After `Object.assign`, every key of a source with distinct keys reads as the source's value. */
  lemma {:induction false} AssignAllWins<V>(r: seq<Entry<V>>, d: seq<Entry<V>>, k: string)
    requires DistinctKeys(d) && HasKey(d, k)
    ensures Lookup(AssignAll(r, d), k) == Lookup(d, k)
    decreases |d|
  {
    var r' := Assign(r, d[0].key, d[0].val);
    assert AssignAll(r, d) == AssignAll(r', d[1..]);
    if d[0].key == k {
      assert !HasKey(d[1..], k) by {
        forall j | 0 <= j < |d[1..]| ensures d[1..][j].key != k {
          assert d[1..][j] == d[j + 1];
        }
      }
      LookupHead(d, k);
    } else {
      LookupTail(d, k);
      assert DistinctKeys(d[1..]) by {
        forall i, j | 0 <= i < j < |d[1..]| ensures d[1..][i].key != d[1..][j].key {
          assert d[1..][i] == d[i + 1] && d[1..][j] == d[j + 1];
        }
      }
      AssignAllWins(r', d[1..], k);
    }
  }

  /** The value the last entry named `k` carries, if any: what a lookup of `k` reads after all of
      `d` has been assigned. */
  function LastWrite<V>(d: seq<Entry<V>>, k: string): Option<V>
    decreases |d|
  {
    if |d| == 0 then None
    else
      var later := LastWrite(d[1..], k);
      if later.Some? then later else if d[0].key == k then Some(d[0].val) else None
  }

  /** `Object.assign(target, source)` reads, at every key, the source's last value for it, or the
      target's when the source does not have the key. */
  lemma {:induction false} AssignAllLookup<V>(r: seq<Entry<V>>, d: seq<Entry<V>>, k: string)
    ensures Lookup(AssignAll(r, d), k) == if LastWrite(d, k).Some? then LastWrite(d, k) else Lookup(r, k)
    decreases |d|
  {
    if |d| > 0 {
      AssignAllLookup(Assign(r, d[0].key, d[0].val), d[1..], k);
    }
  }

  lemma {:induction false} LastWriteConcat<V>(a: seq<Entry<V>>, b: seq<Entry<V>>, k: string)
    ensures LastWrite(a + b, k) == if LastWrite(b, k).Some? then LastWrite(b, k) else LastWrite(a, k)
    decreases |a|
  {
    if |a| == 0 {
      assert a + b == b;
    } else {
      assert (a + b)[0] == a[0] && (a + b)[1..] == a[1..] + b;
      LastWriteConcat(a[1..], b, k);
    }
  }

  /** Entries that do not write a key leave the last write of the entries after them. */
  lemma LastWriteSkip<V>(a: seq<Entry<V>>, b: seq<Entry<V>>, k: string)
    requires LastWrite(a, k).None?
    ensures LastWrite(a + b, k) == LastWrite(b, k)
  {
    LastWriteConcat(a, b, k);
  }

  /** Entries that do not write a key keep the last write of the entries before them. */
  lemma LastWriteKeep<V>(a: seq<Entry<V>>, b: seq<Entry<V>>, k: string)
    requires LastWrite(b, k).None?
    ensures LastWrite(a + b, k) == LastWrite(a, k)
  {
    LastWriteConcat(a, b, k);
  }

  /** A write in the later entries overrides the earlier ones. */
  lemma LastWriteLater<V>(a: seq<Entry<V>>, b: seq<Entry<V>>, k: string)
    requires LastWrite(b, k).Some?
    ensures LastWrite(a + b, k) == LastWrite(b, k)
  {
    LastWriteConcat(a, b, k);
  }

  /** A key the entries do not have is never last written. */
  lemma {:induction false} LastWriteAbsent<V>(d: seq<Entry<V>>, k: string)
    requires forall i | 0 <= i < |d| :: d[i].key != k
    ensures LastWrite(d, k).None?
    decreases |d|
  {
    if |d| > 0 {
      assert forall i | 0 <= i < |d[1..]| :: d[1..][i] == d[i + 1];
      LastWriteAbsent(d[1..], k);
    }
  }
}
