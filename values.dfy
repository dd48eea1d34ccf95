/**
 * The Python values the core passes around: JSON-like settings, report
 * headers, dates and timestamps, with Python's truthiness.
 */
module PyValues {
  import opened Wrappers

  /** `datetime.date` */
  datatype Date = Date(year: int, month: int, day: int)

  /** `datetime.datetime` (naive, to the microsecond) */
  datatype DateTime = DateTime(year: int, month: int, day: int,
                               hour: int, minute: int, second: int, microsecond: int)

  /** A Python value as loaded from JSON or built by the report code. */
  datatype Value =
    | VNone
    | VBool(b: bool)
    | VInt(i: int)
    | VStr(s: string)
    | VList(items: seq<Value>)
    | VDict(entries: map<string, Value>)
    | VDate(date: Date)
    | VDateTime(dt: DateTime)
    | VDelta(microseconds: int)

  /** Python's `bool(v)`. */
  predicate Truthy(v: Value) {
    match v
    case VNone => false
    case VBool(b) => b
    case VInt(i) => i != 0
    case VStr(s) => s != ""
    case VList(xs) => xs != []
    case VDict(m) => m != map[]
    case VDate(_) => true
    case VDateTime(_) => true
    case VDelta(d) => d != 0
  }

  predicate IsLeapYear(y: int) {
    y % 4 == 0 && (y % 100 != 0 || y % 400 == 0)
  }

  function DaysInMonth(y: int, m: int): int
    requires 1 <= m <= 12
  {
    if m == 2 then (if IsLeapYear(y) then 29 else 28)
    else if m == 4 || m == 6 || m == 9 || m == 11 then 30
    else 31
  }

  /** The arguments `datetime.date(y, m, d)` accepts without raising ValueError. */
  predicate IsValidDate(y: int, m: int, d: int) {
    1 <= y <= 9999 && 1 <= m <= 12 && 1 <= d <= DaysInMonth(y, m)
  }

  /**
   * Strict nested lookup: descend one dict per key; `None` as soon as the
   * current value is not a dict or lacks the key.
   */
  function Lookup(v: Value, keys: seq<string>): Option<Value>
    decreases |keys|
  {
    if |keys| == 0 then Some(v)
    else if v.VDict? && keys[0] in v.entries then Lookup(v.entries[keys[0]], keys[1..])
    else None
  }

  /** Looking up `keys + [k]` is looking up `keys`, then one more step. */
  lemma {:induction false} LookupSnoc(v: Value, keys: seq<string>, k: string)
    ensures Lookup(v, keys + [k]) ==
      match Lookup(v, keys)
      case Some(w) => (if w.VDict? && k in w.entries then Some(w.entries[k]) else None)
      case None => None
    decreases |keys|
  {
    if |keys| > 0 {
      assert (keys + [k])[1..] == keys[1..] + [k];
      if v.VDict? && keys[0] in v.entries {
        LookupSnoc(v.entries[keys[0]], keys[1..], k);
      }
    }
  }
}

/** Python dicts as insertion-ordered association lists. */
module OrderedDicts {
  import opened Wrappers

  type Dict<K, V> = seq<(K, V)>

  function Keys<K, V>(d: Dict<K, V>): (ks: seq<K>)
    ensures |ks| == |d| && forall i :: 0 <= i < |d| ==> ks[i] == d[i].0
  {
    if |d| == 0 then [] else [d[0].0] + Keys(d[1..])
  }

  predicate UniqueKeys<K(==), V>(d: Dict<K, V>) {
    forall i, j :: 0 <= i < j < |d| ==> d[i].0 != d[j].0
  }

  /** `d.get(k)` */
  function Get<K(==), V>(d: Dict<K, V>, k: K): (r: Option<V>)
    ensures r.None? <==> k !in Keys(d)
  {
    if |d| == 0 then None
    else if d[0].0 == k then
      assert Keys(d)[0] == k;
      Some(d[0].1)
    else
      assert Keys(d) == [d[0].0] + Keys(d[1..]);
      Get(d[1..], k)
  }

  /**
   * `d[k] = v`: an existing key keeps its position and takes the new value,
   * a new key goes last.
   */
  function Put<K(==,!new), V>(d: Dict<K, V>, k: K, v: V): (r: Dict<K, V>)
    ensures k in Keys(d) ==> Keys(r) == Keys(d)
    ensures k !in Keys(d) ==> Keys(r) == Keys(d) + [k]
    ensures Get(r, k) == Some(v)
    ensures forall k' :: k' != k ==> Get(r, k') == Get(d, k')
  {
    if |d| == 0 then [(k, v)]
    else if d[0].0 == k then [(k, v)] + d[1..]
    else [d[0]] + Put(d[1..], k, v)
  }

  /** A dict built by Put never holds a key twice. */
  lemma PutUnique<K(!new), V>(d: Dict<K, V>, k: K, v: V)
    requires UniqueKeys(d)
    ensures UniqueKeys(Put(d, k, v))
  {
    var r := Put(d, k, v);
    forall i, j | 0 <= i < j < |r| ensures r[i].0 != r[j].0 {
      assert Keys(r)[i] == r[i].0 && Keys(r)[j] == r[j].0;
      if k !in Keys(d) && j == |d| {
        assert Keys(d)[i] == d[i].0;
      } else {
        assert Keys(d)[i] == d[i].0 && Keys(d)[j] == d[j].0;
      }
    }
  }

  /** The dict built by assigning the pairs in order, as a loop of `d[k] = v` does. */
  function PutAll<K(==,!new), V>(ps: seq<(K, V)>): Dict<K, V> {
    if |ps| == 0 then [] else Put(PutAll(ps[..|ps| - 1]), ps[|ps| - 1].0, ps[|ps| - 1].1)
  }

  /** Its keys are the keys assigned. */
  lemma {:induction false} PutAllKeys<K(!new), V>(ps: seq<(K, V)>, k: K)
    ensures Get(PutAll(ps), k).Some? <==> exists v :: (k, v) in ps
  {
    if |ps| > 0 {
      var init := ps[..|ps| - 1];
      PutAllKeys(init, k);
      assert ps == init + [ps[|ps| - 1]];
    }
  }

  /** It holds no key twice. */
  lemma {:induction false} PutAllUnique<K(!new), V>(ps: seq<(K, V)>)
    ensures UniqueKeys(PutAll(ps))
  {
    if |ps| > 0 {
      PutAllUnique(ps[..|ps| - 1]);
      PutUnique(PutAll(ps[..|ps| - 1]), ps[|ps| - 1].0, ps[|ps| - 1].1);
    }
  }

  /** A key maps to the value of its last assignment. */
  lemma {:induction false} PutAllLastWins<K(!new), V>(ps: seq<(K, V)>, j: nat)
    requires j < |ps|
    requires forall m :: j < m < |ps| ==> ps[m].0 != ps[j].0
    ensures Get(PutAll(ps), ps[j].0) == Some(ps[j].1)
  {
    if j < |ps| - 1 {
      var init := ps[..|ps| - 1];
      assert init[j] == ps[j];
      PutAllLastWins(init, j);
    }
  }

  /** Every value in it was assigned to its key. */
  lemma {:induction false} PutAllValues<K(!new), V>(ps: seq<(K, V)>, k: K)
    requires Get(PutAll(ps), k).Some?
    ensures (k, Get(PutAll(ps), k).value) in ps
  {
    var init := ps[..|ps| - 1];
    assert ps == init + [ps[|ps| - 1]];
    if ps[|ps| - 1].0 != k {
      PutAllValues(init, k);
    }
  }

  /**
   * The `Some` results of `f` over the first `k` items of `xs`, in order:
   * what a loop that appends only some of its items has built after `k` steps.
   */
  function FilterMap<T, U>(f: T -> Option<U>, xs: seq<T>, k: nat): seq<U>
    requires k <= |xs|
  {
    if k == 0 then []
    else FilterMap(f, xs, k - 1) + (if f(xs[k - 1]).Some? then [f(xs[k - 1]).value] else [])
  }

  /** Each result comes from an item. */
  lemma {:induction false} FilterMapSource<T, U>(f: T -> Option<U>, xs: seq<T>, k: nat, u: U) returns (j: nat)
    requires k <= |xs| && u in FilterMap(f, xs, k)
    ensures j < k && f(xs[j]) == Some(u)
  {
    if u in FilterMap(f, xs, k - 1) {
      j := FilterMapSource(f, xs, k - 1, u);
    } else {
      j := k - 1;
    }
  }

  /** Each item with a result contributes it. */
  lemma {:induction false} FilterMapHas<T, U>(f: T -> Option<U>, xs: seq<T>, k: nat, j: nat)
    requires j < k <= |xs| && f(xs[j]).Some?
    ensures f(xs[j]).value in FilterMap(f, xs, k)
  {
    if j < k - 1 {
      FilterMapHas(f, xs, k - 1, j);
    }
  }

  /** Assigning one more pair. */
  lemma PutAllSnoc<K(!new), V>(ps: seq<(K, V)>, p: (K, V))
    ensures PutAll(ps + [p]) == Put(PutAll(ps), p.0, p.1)
  {
    assert (ps + [p])[..|ps|] == ps;
  }

  /**
   * The dict an assigning loop has built after `k` items of `xs`: each
   * item for which `f` gives a pair assigns that pair.
   */
  function PutEach<T, K(==,!new), V>(f: T -> Option<(K, V)>, xs: seq<T>, k: nat): Dict<K, V>
    requires k <= |xs|
  {
    if k == 0 then []
    else
      var d := PutEach(f, xs, k - 1);
      match f(xs[k - 1])
      case None => d
      case Some(p) => Put(d, p.0, p.1)
  }

  /** One more item: a pair it produces is assigned, otherwise nothing changes. */
  lemma PutEachStep<T, K(!new), V>(f: T -> Option<(K, V)>, xs: seq<T>, i: nat)
    requires i < |xs|
    ensures f(xs[i]).None? ==> PutEach(f, xs, i + 1) == PutEach(f, xs, i)
    ensures f(xs[i]).Some? ==> PutEach(f, xs, i + 1) == Put(PutEach(f, xs, i), f(xs[i]).value.0, f(xs[i]).value.1)
  {
  }

  /** Looking a key up after one more item. */
  lemma PutEachGet<T, K(!new), V>(f: T -> Option<(K, V)>, xs: seq<T>, i: nat, key: K)
    requires i < |xs|
    ensures Get(PutEach(f, xs, i + 1), key) ==
      if f(xs[i]).Some? && f(xs[i]).value.0 == key then Some(f(xs[i]).value.1) else Get(PutEach(f, xs, i), key)
  {
    PutEachStep(f, xs, i);
  }

  /** Every key an item produces is in it. */
  lemma {:induction false} PutEachKeys<T, K(!new), V>(f: T -> Option<(K, V)>, xs: seq<T>, k: nat, j: nat)
    requires j < k <= |xs| && f(xs[j]).Some?
    ensures Get(PutEach(f, xs, k), f(xs[j]).value.0).Some?
  {
    var i := k - 1;
    var key := f(xs[j]).value.0;
    if j == i {
      PutEachGet(f, xs, i, key);
    } else {
      PutEachKeys(f, xs, i, j);
      PutEachGet(f, xs, i, key);
    }
  }

  /** Every value in it was produced, with its key, by one of the items. */
  lemma {:induction false} PutEachValues<T, K(!new), V>(f: T -> Option<(K, V)>, xs: seq<T>, k: nat, key: K) returns (j: nat)
    requires k <= |xs| && Get(PutEach(f, xs, k), key).Some?
    ensures j < k && f(xs[j]) == Some((key, Get(PutEach(f, xs, k), key).value))
  {
    var i := k - 1;
    var d := PutEach(f, xs, i);
    if f(xs[i]).Some? && f(xs[i]).value.0 == key {
      j := i;
    } else {
      assert Get(d, key) == Get(PutEach(f, xs, k), key) by {
        if f(xs[i]).Some? {
          var p := f(xs[i]).value;
          assert PutEach(f, xs, k) == Put(d, p.0, p.1);
        } else {
          assert PutEach(f, xs, k) == d;
        }
      }
      j := PutEachValues(f, xs, i, key);
    }
  }

  /** Where item `j`'s result sits: after the results of the items before it. */
  lemma {:induction false} FilterMapIndex<T, U>(f: T -> Option<U>, xs: seq<T>, k: nat, j: nat) returns (i: nat)
    requires j < k <= |xs| && f(xs[j]).Some?
    ensures i + 1 == |FilterMap(f, xs, j + 1)| && i < |FilterMap(f, xs, k)|
    ensures FilterMap(f, xs, k)[i] == f(xs[j]).value
  {
    if j == k - 1 {
      i := |FilterMap(f, xs, k)| - 1;
    } else {
      i := FilterMapIndex(f, xs, k - 1, j);
    }
  }

  /** A result after item `j`'s comes from an item after `j`. */
  lemma {:induction false} FilterMapLater<T, U>(f: T -> Option<U>, xs: seq<T>, k: nat, j: nat, m: nat) returns (j': nat)
    requires j < k <= |xs|
    requires |FilterMap(f, xs, j + 1)| <= m < |FilterMap(f, xs, k)|
    ensures j < j' < k && f(xs[j']) == Some(FilterMap(f, xs, k)[m])
  {
    if m < |FilterMap(f, xs, k - 1)| {
      j' := FilterMapLater(f, xs, k - 1, j, m);
    } else {
      j' := k - 1;
    }
  }

  /**
   * Assigning the pairs an item-by-item loop produces: a key gets the value
   * of the last item that produced it.
   */
  lemma FilterMapLastWins<T, K(!new), V>(f: T -> Option<(K, V)>, xs: seq<T>, k: nat, j: nat)
    requires j < k <= |xs| && f(xs[j]).Some?
    requires forall m :: j < m < k && f(xs[m]).Some? ==> f(xs[m]).value.0 != f(xs[j]).value.0
    ensures Get(PutAll(FilterMap(f, xs, k)), f(xs[j]).value.0) == Some(f(xs[j]).value.1)
  {
    var ps := FilterMap(f, xs, k);
    var i := FilterMapIndex(f, xs, k, j);
    forall m | i < m < |ps| ensures ps[m].0 != ps[i].0 {
      var j' := FilterMapLater(f, xs, k, j, m);
    }
    PutAllLastWins(ps, i);
  }
}
