/** A JavaScript object with string keys, as an insertion-ordered sequence of
    entries: `Object.entries` order is the sequence order, assigning to an existing
    key keeps its position, assigning to a new key appends it, `delete` removes it. */
module JsObjects {
  import opened Wrappers

  datatype Entry<V> = Entry(key: string, value: V)

  type Obj<V> = seq<Entry<V>>

  function Keys<V>(o: Obj<V>): (ks: seq<string>)
    ensures |ks| == |o|
    ensures forall i :: 0 <= i < |o| ==> ks[i] == o[i].key
  {
    seq(|o|, i requires 0 <= i < |o| => o[i].key)
  }

  function Values<V>(o: Obj<V>): (vs: seq<V>)
    ensures |vs| == |o|
    ensures forall i :: 0 <= i < |o| ==> vs[i] == o[i].value
  {
    seq(|o|, i requires 0 <= i < |o| => o[i].value)
  }

  /** Keys of an object are distinct: what any JSON-parsed or script-built object satisfies. */
  predicate UniqueKeys<V>(o: Obj<V>) {
    forall i, j :: 0 <= i < j < |o| ==> o[i].key != o[j].key
  }

  /** The names every plain object inherits from `Object.prototype`: `k in o` holds for
      them whatever the entries are, and `o[k]` reads the inherited member. */
  const PROTOTYPE_MEMBERS: set<string> := {
    "constructor", "__defineGetter__", "__defineSetter__", "hasOwnProperty",
    "__lookupGetter__", "__lookupSetter__", "isPrototypeOf", "propertyIsEnumerable",
    "toString", "valueOf", "__proto__", "toLocaleString"}

  predicate HasKey<V>(o: Obj<V>, k: string) {
    exists i :: 0 <= i < |o| && o[i].key == k
  }

  /** `o[k]`: the value stored under the first entry with key `k`, or None (`undefined`). */
  function Get<V>(o: Obj<V>, k: string): (r: Option<V>)
    ensures r.None? <==> !HasKey(o, k)
  {
    if |o| == 0 then None
    else if o[0].key == k then Some(o[0].value)
    else
      assert forall i :: 1 <= i < |o| ==> o[i] == o[1..][i - 1];
      Get(o[1..], k)
  }

  /** Under unique keys, the entry at index `i` is what `Get` finds for its key. */
  lemma {:induction false} GetAt<V>(o: Obj<V>, i: int)
    requires UniqueKeys(o) && 0 <= i < |o|
    ensures Get(o, o[i].key) == Some(o[i].value)
  {
    if i > 0 {
      assert o[1..][i - 1] == o[i];
      GetAt(o[1..], i - 1);
    }
  }

  /** `o[k] = v`: replaces the value in place when `k` is present, appends otherwise. */
  function Put<V>(o: Obj<V>, k: string, v: V): (r: Obj<V>)
    ensures |r| == if HasKey(o, k) then |o| else |o| + 1
    ensures forall i :: 0 <= i < |o| ==> r[i].key == o[i].key
    ensures !HasKey(o, k) ==> r[|o|] == Entry(k, v)
  {
    if |o| == 0 then [Entry(k, v)]
    else if o[0].key == k then [Entry(k, v)] + o[1..]
    else
      assert HasKey(o, k) <==> HasKey(o[1..], k) by {
        assert forall i :: 1 <= i < |o| ==> o[i] == o[1..][i - 1];
      }
      [o[0]] + Put(o[1..], k, v)
  }

  /** The keys after `o[k] = v`: the same when `k` is present, `k` appended otherwise. */
  lemma PutKeys<V>(o: Obj<V>, k: string, v: V)
    ensures HasKey(o, k) ==> Keys(Put(o, k, v)) == Keys(o)
    ensures !HasKey(o, k) ==> Keys(Put(o, k, v)) == Keys(o) + [k]
  {
    var r := Put(o, k, v);
    if !HasKey(o, k) {
      assert Keys(r)[|o|] == k;
    }
  }

  /** After `o[k] = v`, reading `k` gives `v` and every other key reads as before. */
  lemma {:induction false} GetPut<V>(o: Obj<V>, k: string, v: V, k': string)
    ensures Get(Put(o, k, v), k') == if k' == k then Some(v) else Get(o, k')
  {
    if |o| > 0 && o[0].key != k {
      GetPut(o[1..], k, v, k');
    }
  }

  /** Assigning a key twice leaves the second value, in the first assignment's place. */
  lemma {:induction false} PutPut<V>(o: Obj<V>, k: string, v: V, w: V)
    ensures Put(Put(o, k, v), k, w) == Put(o, k, w)
  {
    if |o| > 0 && o[0].key != k {
      PutPut(o[1..], k, v, w);
      assert Put(o, k, v)[1..] == Put(o[1..], k, v);
    }
  }

  /** Assigning a new key appends its entry. */
  lemma {:induction false} PutAbsentAppends<V>(o: Obj<V>, k: string, v: V)
    requires !HasKey(o, k)
    ensures Put(o, k, v) == o + [Entry(k, v)]
  {
    if |o| > 0 {
      assert !HasKey(o[1..], k) by {
        assert forall i :: 0 <= i < |o[1..]| ==> o[1..][i] == o[i + 1];
      }
      PutAbsentAppends(o[1..], k, v);
      assert o == [o[0]] + o[1..];
    }
  }

  /** `k in o` is `k` among the keys. */
  lemma HasKeyIsKey<V>(o: Obj<V>, k: string)
    ensures HasKey(o, k) <==> k in Keys(o)
  {
    var ks := Keys(o);
    if k in ks {
      var i :| 0 <= i < |ks| && ks[i] == k;
      assert o[i].key == k;
    }
  }

  /** The keys of an object are the keys of all but its last entry, then the last key. */
  lemma KeysSnoc<V>(o: Obj<V>)
    requires |o| > 0
    ensures Keys(o) == Keys(o[..|o| - 1]) + [o[|o| - 1].key]
  {
    var ks, kp := Keys(o), Keys(o[..|o| - 1]);
    var rhs := kp + [o[|o| - 1].key];
    forall i | 0 <= i < |ks|
      ensures ks[i] == rhs[i]
    {
      if i < |kp| {
        assert kp[i] == o[..|o| - 1][i].key;
      }
    }
  }

  /** Dropping the last entry of an object with distinct keys leaves distinct keys,
      none of them the dropped one. */
  lemma LastKeyFresh<V>(o: Obj<V>)
    requires UniqueKeys(o) && |o| > 0
    ensures UniqueKeys(o[..|o| - 1])
    ensures !HasKey(o[..|o| - 1], o[|o| - 1].key)
  {
    var prefix := o[..|o| - 1];
    assert forall i :: 0 <= i < |prefix| ==> prefix[i] == o[i];
    forall i | 0 <= i < |prefix|
      ensures prefix[i].key != o[|o| - 1].key
    {
      assert o[i].key != o[|o| - 1].key;
    }
  }

  lemma PutKeepsUniqueKeys<V>(o: Obj<V>, k: string, v: V)
    requires UniqueKeys(o)
    ensures UniqueKeys(Put(o, k, v))
  {
    var r := Put(o, k, v);
    if !HasKey(o, k) {
      forall i | 0 <= i < |o|
        ensures r[i].key != r[|o|].key
      {
        assert o[i].key != k;
      }
    }
  }

  /** `delete o[k]`: every entry except those under `k`, in order. */
  function Delete<V>(o: Obj<V>, k: string): (r: Obj<V>)
    ensures !HasKey(r, k)
    ensures |r| <= |o|
    ensures forall e :: e in r ==> e in o
  {
    if |o| == 0 then []
    else
      var rest := Delete(o[1..], k);
      if o[0].key == k then rest
      else
        var r := [o[0]] + rest;
        assert forall i :: 1 <= i < |r| ==> r[i] == rest[i - 1];
        r
  }

  /** After `delete o[k]`, every other key reads as before. */
  lemma {:induction false} GetDelete<V>(o: Obj<V>, k: string, k': string)
    requires k' != k
    ensures Get(Delete(o, k), k') == Get(o, k')
  {
    if |o| > 0 {
      GetDelete(o[1..], k, k');
    }
  }

  /** Deleting a key that is present, under unique keys, removes exactly its entry. */
  lemma DeleteRemovesOneEntry<V>(o: Obj<V>, k: string, i: int)
    requires UniqueKeys(o) && 0 <= i < |o| && o[i].key == k
    ensures Delete(o, k) == o[..i] + o[i + 1..]
  {
    if i == 0 {
      DeleteAbsent(o[1..], k);
      assert o[..0] + o[1..] == o[1..];
    } else {
      DeleteRemovesOneEntry(o[1..], k, i - 1);
      assert o[..i] + o[i + 1..] == [o[0]] + (o[1..][..i - 1] + o[1..][i..]);
    }
  }

  lemma {:induction false} DeleteKeepsUniqueKeys<V>(o: Obj<V>, k: string)
    requires UniqueKeys(o)
    ensures UniqueKeys(Delete(o, k))
  {
    if |o| > 0 {
      var tail := o[1..];
      assert UniqueKeys(tail) by {
        assert forall i :: 0 <= i < |tail| ==> tail[i] == o[i + 1];
      }
      DeleteKeepsUniqueKeys(tail, k);
      var rest := Delete(tail, k);
      if o[0].key != k {
        forall e | e in rest
          ensures e.key != o[0].key
        {
          assert e in tail;
          var i :| 0 <= i < |tail| && tail[i] == e;
          assert o[i + 1] == e;
        }
        var r := [o[0]] + rest;
        assert forall i :: 1 <= i < |r| ==> r[i] == rest[i - 1] && r[i] in rest;
      }
    }
  }

  lemma DeleteAbsent<V>(o: Obj<V>, k: string)
    requires forall j :: 0 <= j < |o| ==> o[j].key != k
    ensures Delete(o, k) == o
  {
    if |o| > 0 {
      DeleteAbsent(o[1..], k);
    }
  }

  /** The set of keys of an object. */
  function KeySet<V>(o: Obj<V>): (s: set<string>)
    ensures forall k :: k in s <==> k in Keys(o)
  {
    var ks := Keys(o);
    assert forall k :: k in ks ==> exists i :: 0 <= i < |o| && o[i].key == k;
    set i | 0 <= i < |o| :: o[i].key
  }

  /** With distinct keys there are as many keys as entries. */
  lemma {:induction false} KeySetSize<V>(o: Obj<V>)
    requires UniqueKeys(o)
    ensures |KeySet(o)| == |o|
  {
    if |o| > 0 {
      var prefix, last := o[..|o| - 1], o[|o| - 1];
      LastKeyFresh(o);
      KeySetSize(prefix);
      KeysSnoc(o);
      HasKeyIsKey(prefix, last.key);
      assert KeySet(o) == KeySet(prefix) + {last.key};
    }
  }

  /** Sum of the values of a numeric object. */
  function SumValues(o: Obj<int>): int {
    if |o| == 0 then 0 else o[0].value + SumValues(o[1..])
  }

  lemma {:induction false} SumValuesAppend(o: Obj<int>, e: Entry<int>)
    ensures SumValues(o + [e]) == SumValues(o) + e.value
  {
    if |o| > 0 {
      assert (o + [e])[1..] == o[1..] + [e];
      SumValuesAppend(o[1..], e);
    }
  }

  /** Two objects with the same values position by position have the same sum. */
  lemma {:induction false} SumValuesSameValues(a: Obj<int>, b: Obj<int>)
    requires |a| == |b|
    requires forall i :: 0 <= i < |a| ==> a[i].value == b[i].value
    ensures SumValues(a) == SumValues(b)
  {
    if |a| > 0 {
      SumValuesSameValues(a[1..], b[1..]);
    }
  }

  /** `if (!o[k]) o[k] = 0; o[k] += n;` — a counter keyed by `k`. */
  function AddTo(o: Obj<int>, k: string, n: int): (r: Obj<int>)
    ensures |r| == if HasKey(o, k) then |o| else |o| + 1
    ensures forall i :: 0 <= i < |o| ==> r[i].key == o[i].key
    ensures !HasKey(o, k) ==> r[|o|] == Entry(k, n)
    ensures SumValues(r) == SumValues(o) + n
  {
    if |o| == 0 then [Entry(k, n)]
    else if o[0].key == k then
      var r := [Entry(k, o[0].value + n)] + o[1..];
      assert r[1..] == o[1..];
      r
    else
      assert HasKey(o, k) <==> HasKey(o[1..], k) by {
        assert forall i :: 1 <= i < |o| ==> o[i] == o[1..][i - 1];
      }
      var rest := AddTo(o[1..], k, n);
      var r := [o[0]] + rest;
      assert r[1..] == rest;
      r
  }

  /** The keys after counting under `k`: the same when `k` is present, `k` appended otherwise. */
  lemma AddToKeys(o: Obj<int>, k: string, n: int)
    ensures HasKey(o, k) ==> Keys(AddTo(o, k, n)) == Keys(o)
    ensures !HasKey(o, k) ==> Keys(AddTo(o, k, n)) == Keys(o) + [k]
  {
    var r := AddTo(o, k, n);
    if !HasKey(o, k) {
      assert Keys(r)[|o|] == k;
    }
  }

  /** A counter update adds its key to the key set and nothing else. */
  lemma AddToKeySet(o: Obj<int>, k: string, n: int)
    ensures KeySet(AddTo(o, k, n)) == KeySet(o) + {k}
  {
    AddToKeys(o, k, n);
    HasKeyIsKey(o, k);
  }

  /** The key set of an appended entry. */
  lemma KeySetSnoc<V>(o: Obj<V>)
    requires |o| > 0
    ensures KeySet(o) == KeySet(o[..|o| - 1]) + {o[|o| - 1].key}
  {
    KeysSnoc(o);
  }

  /** The counter under `k` grows by `n` (from 0 when absent); other counters stay. */
  lemma GetAddTo(o: Obj<int>, k: string, n: int, k': string)
    ensures Get(AddTo(o, k, n), k') ==
            if k' == k then Some(Get(o, k).GetOr(0) + n) else Get(o, k')
  {
    if k' == k {
      GetAddToSame(o, k, n);
    } else {
      GetAddToOther(o, k, n, k');
    }
  }

  lemma {:induction false} GetAddToSame(o: Obj<int>, k: string, n: int)
    ensures Get(AddTo(o, k, n), k) == Some(Get(o, k).GetOr(0) + n)
  {
    if |o| == 0 {
      assert AddTo(o, k, n) == [Entry(k, n)];
    } else if o[0].key == k {
      assert Get(o, k) == Some(o[0].value);
      assert AddTo(o, k, n)[0] == Entry(k, o[0].value + n);
    } else {
      var r, rest := AddTo(o, k, n), AddTo(o[1..], k, n);
      GetAddToSame(o[1..], k, n);
      assert r[0].key != k && r[1..] == rest by {
        assert r == [o[0]] + rest;
      }
      assert Get(r, k) == Get(rest, k);
    }
  }

  lemma {:induction false} GetAddToOther(o: Obj<int>, k: string, n: int, k': string)
    requires k' != k
    ensures Get(AddTo(o, k, n), k') == Get(o, k')
  {
    if |o| > 0 && o[0].key != k {
      GetAddToOther(o[1..], k, n, k');
    }
  }

  lemma AddToKeepsUniqueKeys(o: Obj<int>, k: string, n: int)
    requires UniqueKeys(o)
    ensures UniqueKeys(AddTo(o, k, n))
  {
    var r := AddTo(o, k, n);
    if !HasKey(o, k) {
      forall i | 0 <= i < |o|
        ensures r[i].key != r[|o|].key
      {
        assert o[i].key != k;
      }
    }
  }
}
