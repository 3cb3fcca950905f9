/** A Python `dict` with string keys, kept as its list of entries in insertion
    order: assigning to a key that is present overwrites its value in place, a new
    key is appended at the end. The crawler's tables, grid rows and section map
    are all built this way. */
module Dict {
  import opened Wrappers

  type Dict<V> = seq<(string, V)>

  function Keys<V>(d: Dict<V>): seq<string> {
    seq(|d|, i requires 0 <= i < |d| => d[i].0)
  }

  predicate UniqueKeys<V>(d: Dict<V>) {
    forall i, j :: 0 <= i < j < |d| ==> d[i].0 != d[j].0
  }

  /** `d.get(k)`. */
  function Get<V>(d: Dict<V>, k: string): Option<V> {
    if d == [] then None else if d[0].0 == k then Some(d[0].1) else Get(d[1..], k)
  }

  /** `d[k] = v`. */
  function Put<V>(d: Dict<V>, k: string, v: V): Dict<V> {
    if d == [] then [(k, v)]
    else if d[0].0 == k then [(k, v)] + d[1..]
    else [d[0]] + Put(d[1..], k, v)
  }

  /** A key the crawler stores: non-empty and not one of the `skip` labels. */
  predicate Kept(k: string, skip: set<string>) {
    k != "" && k !in skip
  }

  /** `for key, val in pairs: if key and key not in skip: d[key] = val`. */
  function PutPairs<V>(d: Dict<V>, pairs: seq<(string, V)>, skip: set<string>): Dict<V>
    decreases |pairs|
  {
    if pairs == [] then d
    else
      var prior := PutPairs(d, pairs[..|pairs| - 1], skip);
      var p := pairs[|pairs| - 1];
      if Kept(p.0, skip) then Put(prior, p.0, p.1) else prior
  }

  // ---------------------------------------------------------------------------
  // Put

  lemma {:induction false} KeysCons<V>(d: Dict<V>)
    requires d != []
    ensures Keys(d) == [d[0].0] + Keys(d[1..])
  {
  }

  /** Assignment keeps an existing key in its place and appends a new one. */
  lemma {:induction false} PutKeys<V>(d: Dict<V>, k: string, v: V)
    ensures Keys(Put(d, k, v)) == if k in Keys(d) then Keys(d) else Keys(d) + [k]
  {
    if d != [] {
      KeysCons(d);
      KeysCons(Put(d, k, v));
      if d[0].0 != k {
        PutKeys(d[1..], k, v);
      }
    }
  }

  /** After `d[k] = v`, looking up `k` gives `v` and every other key is unaffected. */
  lemma {:induction false} PutGet<V>(d: Dict<V>, k: string, v: V, x: string)
    ensures Get(Put(d, k, v), x) == if x == k then Some(v) else Get(d, x)
  {
    if d != [] && d[0].0 != k {
      PutGet(d[1..], k, v, x);
    }
  }

  lemma {:induction false} GetKeys<V>(d: Dict<V>, k: string)
    ensures Get(d, k).Some? <==> k in Keys(d)
  {
    if d != [] {
      KeysCons(d);
      GetKeys(d[1..], k);
    }
  }

  lemma UniqueKeysOfKeys<V>(d: Dict<V>)
    ensures UniqueKeys(d) <==> forall i, j :: 0 <= i < j < |Keys(d)| ==> Keys(d)[i] != Keys(d)[j]
  {
    assert |Keys(d)| == |d|;
    assert forall i :: 0 <= i < |d| ==> Keys(d)[i] == d[i].0;
  }

  /** Assignment never introduces a repeated key. */
  lemma PutUnique<V>(d: Dict<V>, k: string, v: V)
    requires UniqueKeys(d)
    ensures UniqueKeys(Put(d, k, v))
  {
    PutKeys(d, k, v);
    UniqueKeysOfKeys(d);
    UniqueKeysOfKeys(Put(d, k, v));
  }

  // ---------------------------------------------------------------------------
  // PutPairs

  lemma PutPairsSnoc<V>(d: Dict<V>, pairs: seq<(string, V)>, p: (string, V), skip: set<string>)
    ensures PutPairs(d, pairs + [p], skip)
         == if Kept(p.0, skip) then Put(PutPairs(d, pairs, skip), p.0, p.1) else PutPairs(d, pairs, skip)
  {
    assert (pairs + [p])[..|pairs|] == pairs;
  }

  /** The keys after a run of assignments: the old keys and every kept label of the run. */
  lemma {:induction false} PutPairsKeys<V>(d: Dict<V>, pairs: seq<(string, V)>, skip: set<string>, k: string)
    ensures k in Keys(PutPairs(d, pairs, skip))
        <==> k in Keys(d) || (Kept(k, skip) && exists i :: 0 <= i < |pairs| && pairs[i].0 == k)
    decreases |pairs|
  {
    if pairs != [] {
      var n := |pairs| - 1;
      var init := pairs[..n];
      PutPairsKeys(d, init, skip, k);
      var p := pairs[n];
      if Kept(p.0, skip) {
        PutKeys(PutPairs(d, init, skip), p.0, p.1);
      }
      if exists i :: 0 <= i < |pairs| && pairs[i].0 == k {
        var i :| 0 <= i < |pairs| && pairs[i].0 == k;
        if i < n { assert init[i].0 == k; }
      }
      assert forall i :: 0 <= i < n ==> init[i] == pairs[i];
    }
  }

  /** A run of assignments keeps the keys distinct. */
  lemma {:induction false} PutPairsUnique<V>(d: Dict<V>, pairs: seq<(string, V)>, skip: set<string>)
    requires UniqueKeys(d)
    ensures UniqueKeys(PutPairs(d, pairs, skip))
    decreases |pairs|
  {
    if pairs != [] {
      var n := |pairs| - 1;
      PutPairsUnique(d, pairs[..n], skip);
      if Kept(pairs[n].0, skip) {
        PutUnique(PutPairs(d, pairs[..n], skip), pairs[n].0, pairs[n].1);
      }
    }
  }

  /** Last write wins: the value stored under a kept label is the one of the last
      pair in the run that carries that label. */
  lemma {:induction false} PutPairsLastWins<V>(d: Dict<V>, pairs: seq<(string, V)>, skip: set<string>, k: string)
    returns (i: nat)
    requires Kept(k, skip)
    requires exists j :: 0 <= j < |pairs| && pairs[j].0 == k
    ensures i < |pairs| && pairs[i].0 == k
    ensures forall j :: i < j < |pairs| ==> pairs[j].0 != k
    ensures Get(PutPairs(d, pairs, skip), k) == Some(pairs[i].1)
    decreases |pairs|
  {
    var n := |pairs| - 1;
    var init := pairs[..n];
    var p := pairs[n];
    if p.0 == k {
      i := n;
      PutGet(PutPairs(d, init, skip), k, p.1, k);
    } else {
      var j :| 0 <= j < |pairs| && pairs[j].0 == k;
      assert init[j].0 == k;
      i := PutPairsLastWins(d, init, skip, k);
      assert pairs[i] == init[i];
      if Kept(p.0, skip) {
        PutGet(PutPairs(d, init, skip), p.0, p.1, k);
      }
    }
  }

  /** A label that never occurs as a kept label leaves the lookup as it was. */
  lemma {:induction false} PutPairsUntouched<V>(d: Dict<V>, pairs: seq<(string, V)>, skip: set<string>, k: string)
    requires !Kept(k, skip) || forall j :: 0 <= j < |pairs| ==> pairs[j].0 != k
    ensures Get(PutPairs(d, pairs, skip), k) == Get(d, k)
    decreases |pairs|
  {
    if pairs != [] {
      var n := |pairs| - 1;
      PutPairsUntouched(d, pairs[..n], skip, k);
      if Kept(pairs[n].0, skip) {
        PutGet(PutPairs(d, pairs[..n], skip), pairs[n].0, pairs[n].1, k);
      }
    }
  }

  /** Every entry after `d[k] = v` is `(k, v)` or an entry of `d`. */
  lemma {:induction false} PutEntries<V>(d: Dict<V>, k: string, v: V)
    ensures forall e :: e in Put(d, k, v) ==> e in d || e == (k, v)
  {
    if d != [] && d[0].0 != k {
      PutEntries(d[1..], k, v);
      assert forall e :: e in d[1..] ==> e in d;
    }
  }

  /** Every entry after a run of assignments comes from `d` or from the run. */
  lemma {:induction false} PutPairsEntries<V>(d: Dict<V>, pairs: seq<(string, V)>, skip: set<string>)
    ensures forall e :: e in PutPairs(d, pairs, skip) ==> e in d || e in pairs
    decreases |pairs|
  {
    if pairs != [] {
      var n := |pairs| - 1;
      PutPairsEntries(d, pairs[..n], skip);
      PutEntries(PutPairs(d, pairs[..n], skip), pairs[n].0, pairs[n].1);
      assert forall e :: e in pairs[..n] ==> e in pairs;
    }
  }

  lemma KeysAppend<V>(a: Dict<V>, b: Dict<V>)
    ensures Keys(a + b) == Keys(a) + Keys(b)
  {
    assert forall i :: 0 <= i < |a| + |b| ==> Keys(a + b)[i] == (Keys(a) + Keys(b))[i];
  }

  /** A key occurs in the keys exactly when some entry carries it. */
  lemma KeysMember<V>(d: Dict<V>, k: string)
    ensures k in Keys(d) <==> exists i :: 0 <= i < |d| && d[i].0 == k
  {
    if k in Keys(d) {
      var i :| 0 <= i < |Keys(d)| && Keys(d)[i] == k;
    }
    if exists i :: 0 <= i < |d| && d[i].0 == k {
      var i :| 0 <= i < |d| && d[i].0 == k;
      assert Keys(d)[i] == k;
    }
  }

  /** A run of assignments split in two is the second part applied after the first. */
  lemma {:induction false} PutPairsAppend<V>(d: Dict<V>, a: seq<(string, V)>, b: seq<(string, V)>, skip: set<string>)
    ensures PutPairs(d, a + b, skip) == PutPairs(PutPairs(d, a, skip), b, skip)
    decreases |b|
  {
    if b == [] {
      assert a + b == a;
    } else {
      var n := |b| - 1;
      assert (a + b)[..|a + b| - 1] == a + b[..n];
      PutPairsAppend(d, a, b[..n], skip);
    }
  }

  /** The loop `for key, val in pairs: if key and key not in skip: d[key] = val`. */
  method PutAll<V>(d: Dict<V>, pairs: seq<(string, V)>, skip: set<string>) returns (r: Dict<V>)
    ensures r == PutPairs(d, pairs, skip)
  {
    r := d;
    for j := 0 to |pairs|
      invariant r == PutPairs(d, pairs[..j], skip)
    {
      var (key, val) := pairs[j];
      assert pairs[..j + 1] == pairs[..j] + [pairs[j]];
      PutPairsSnoc(d, pairs[..j], pairs[j], skip);
      if key != "" && key !in skip {
        r := Put(r, key, val);
      }
    }
    assert pairs[..|pairs|] == pairs;
  }
}
